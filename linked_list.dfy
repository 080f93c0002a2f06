/**
 * The doubly linked list of lib/linked-list.js: nodes with `prev`/`next`
 * links, and a list object with `first`, `last` and `count` that its
 * methods rewire in place.
 *
 * The list is specified by two ghost fields: `Nodes`, the nodes from first
 * to last, and `Contents`, their values. `Valid()` ties the concrete links
 * to them. Every mutator keeps `Valid()` and states its effect on `Contents`.
 */
module DoublyLinkedList {
  import opened Wrappers

  /** A list node (lib/linked-list.js:9-15): a value and two links, both null when created. */
  class Node<T> {
    const value: T
    var prev: Node?<T>
    var next: Node?<T>

    constructor (val: T)
      ensures value == val && prev == null && next == null
    {
      value := val;
      prev := null;
      next := null;
    }
  }

  /** `filter` on a sequence: the elements that satisfy `p`, in order. */
  function FilterSeq<T>(s: seq<T>, p: T -> bool): (r: seq<T>)
    ensures |r| <= |s|
    ensures forall i :: 0 <= i < |r| ==> p(r[i]) && r[i] in s
  {
    if s == [] then []
    else if p(s[0]) then [s[0]] + FilterSeq(s[1..], p)
    else FilterSeq(s[1..], p)
  }

  /** `map` on a sequence: `f` of each element, in order. */
  function MapSeq<T, U>(s: seq<T>, f: T -> U): (r: seq<U>)
    ensures |r| == |s|
    ensures forall i :: 0 <= i < |s| ==> r[i] == f(s[i])
  {
    if s == [] then [] else [f(s[0])] + MapSeq(s[1..], f)
  }

  /** `reduce` with an initial value on a sequence: fold `f` from the left. */
  function FoldLeft<T, U>(f: (U, T) -> U, acc: U, s: seq<T>): (r: U)
    ensures s != [] ==> r == f(FoldLeft(f, acc, s[..|s| - 1]), s[|s| - 1])
  {
    if s == [] then acc
    else if |s| == 1 then f(acc, s[0])
    else
      assert s[..|s| - 1][1..] == s[1..][..|s| - 2];
      FoldLeft(f, f(acc, s[0]), s[1..])
  }

  /** Filtering distributes over concatenation. */
  lemma {:induction false} FilterConcat<T>(a: seq<T>, b: seq<T>, p: T -> bool)
    ensures FilterSeq(a + b, p) == FilterSeq(a, p) + FilterSeq(b, p)
  {
    if a == [] {
      assert a + b == b;
    } else {
      assert (a + b)[0] == a[0];
      assert (a + b)[1..] == a[1..] + b;
      FilterConcat(a[1..], b, p);
    }
  }

  /** Filtering keeps exactly the elements that satisfy the predicate: none is dropped. */
  lemma {:induction false} FilterKeepsMatches<T>(s: seq<T>, p: T -> bool, x: T)
    ensures x in FilterSeq(s, p) <==> x in s && p(x)
  {
    if s != [] {
      FilterKeepsMatches(s[1..], p, x);
      assert s == [s[0]] + s[1..];
    }
  }

  /** Filtering twice with the same predicate is filtering once. */
  lemma {:induction false} FilterIdempotent<T>(s: seq<T>, p: T -> bool)
    ensures FilterSeq(FilterSeq(s, p), p) == FilterSeq(s, p)
  {
    if s != [] {
      FilterIdempotent(s[1..], p);
      if p(s[0]) {
        var r := [s[0]] + FilterSeq(s[1..], p);
        assert r[0] == s[0] && r[1..] == FilterSeq(s[1..], p);
      }
    }
  }

  /** Mapping distributes over concatenation. */
  lemma MapConcat<T, U>(a: seq<T>, b: seq<T>, f: T -> U)
    ensures MapSeq(a + b, f) == MapSeq(a, f) + MapSeq(b, f)
  {
    var l, r := MapSeq(a + b, f), MapSeq(a, f) + MapSeq(b, f);
    assert |l| == |r|;
    forall i | 0 <= i < |l| ensures l[i] == r[i] {
      if i < |a| {
        assert (a + b)[i] == a[i];
      } else {
        assert (a + b)[i] == b[i - |a|];
      }
    }
  }

  /** Folding over a concatenation folds the second part from the result of the first. */
  lemma {:induction false} FoldLeftConcat<T, U>(f: (U, T) -> U, acc: U, a: seq<T>, b: seq<T>)
    ensures FoldLeft(f, acc, a + b) == FoldLeft(f, FoldLeft(f, acc, a), b)
  {
    if a == [] {
      assert a + b == b;
    } else {
      assert (a + b)[0] == a[0];
      assert (a + b)[1..] == a[1..] + b;
      FoldLeftConcat(f, f(acc, a[0]), a[1..], b);
    }
  }

  /** The element test of `equals`: the comparator when one is given, strict equality otherwise. */
  predicate Same<T(==)>(comparator: Option<(T, T) -> bool>, a: T, b: T) {
    match comparator
    case Some(cmp) => cmp(a, b)
    case None => a == b
  }

  /** No node occurs twice. */
  ghost predicate Distinct<T>(ns: seq<Node<T>>) {
    forall i, j :: 0 <= i < j < |ns| ==> ns[i] != ns[j]
  }

  /** Each node's `prev` is the node before it and each node's `next` the node after it. */
  ghost predicate Linked<T>(ns: seq<Node<T>>)
    reads ns
  {
    && (forall i :: 0 < i < |ns| ==> ns[i].prev == ns[i - 1])
    && (forall i :: 0 <= i < |ns| - 1 ==> ns[i].next == ns[i + 1])
  }

  /** The values of the nodes, in order, are `cs`. */
  ghost predicate HoldsValues<T>(ns: seq<Node<T>>, cs: seq<T>) {
    |ns| == |cs| && forall i :: 0 <= i < |ns| ==> ns[i].value == cs[i]
  }

  /** Splicing a node and its value in at the same position keeps the values in step. */
  lemma ValuesInsert<T>(ns: seq<Node<T>>, cs: seq<T>, p: int, m: Node<T>)
    requires HoldsValues(ns, cs) && 0 <= p <= |ns|
    ensures HoldsValues(ns[..p] + [m] + ns[p..], cs[..p] + [m.value] + cs[p..])
  {
    var ms, ds := ns[..p] + [m] + ns[p..], cs[..p] + [m.value] + cs[p..];
    forall j | 0 <= j < |ms| ensures ms[j].value == ds[j] {
      if j < p {
        assert ms[j] == ns[j] && ds[j] == cs[j];
      } else if j > p {
        assert ms[j] == ns[j - 1] && ds[j] == cs[j - 1];
      }
    }
  }

  /** Cutting out a node and its value at the same position keeps the values in step. */
  lemma ValuesRemove<T>(ns: seq<Node<T>>, cs: seq<T>, i: int)
    requires HoldsValues(ns, cs) && 0 <= i < |ns|
    ensures HoldsValues(ns[..i] + ns[i + 1..], cs[..i] + cs[i + 1..])
  {
    var ms, ds := ns[..i] + ns[i + 1..], cs[..i] + cs[i + 1..];
    forall j | 0 <= j < |ms| ensures ms[j].value == ds[j] {
      if j < i {
        assert ms[j] == ns[j] && ds[j] == cs[j];
      } else {
        assert ms[j] == ns[j + 1] && ds[j] == cs[j + 1];
      }
    }
  }

  /**
   * Splicing a node `m` in at position `p` of a linked sequence gives a linked
   * sequence, once the two links across the gap point at `m` and back.
   */
  lemma LinkInsert<T>(ns: seq<Node<T>>, p: int, m: Node<T>)
    requires 0 <= p <= |ns| && Distinct(ns) && forall j :: 0 <= j < |ns| ==> ns[j] != m
    requires forall j :: 0 < j < |ns| && j != p ==> ns[j].prev == ns[j - 1]
    requires forall j :: 0 <= j < |ns| - 1 && j != p - 1 ==> ns[j].next == ns[j + 1]
    requires p > 0 ==> ns[p - 1].next == m && m.prev == ns[p - 1]
    requires p < |ns| ==> m.next == ns[p] && ns[p].prev == m
    ensures Linked(ns[..p] + [m] + ns[p..]) && Distinct(ns[..p] + [m] + ns[p..])
  {
    var ms := ns[..p] + [m] + ns[p..];
    assert forall j :: 0 <= j < p ==> ms[j] == ns[j];
    assert ms[p] == m;
    assert forall j :: p < j < |ms| ==> ms[j] == ns[j - 1];
  }

  /**
   * Cutting the node at position `i` out of a linked sequence gives a linked
   * sequence, once its neighbours point at each other.
   */
  lemma LinkRemove<T>(ns: seq<Node<T>>, i: int)
    requires 0 <= i < |ns| && Distinct(ns)
    requires forall j :: 0 < j < |ns| && j != i && j != i + 1 ==> ns[j].prev == ns[j - 1]
    requires forall j :: 0 <= j < |ns| - 1 && j != i - 1 && j != i ==> ns[j].next == ns[j + 1]
    requires 0 < i < |ns| - 1 ==> ns[i - 1].next == ns[i + 1] && ns[i + 1].prev == ns[i - 1]
    ensures Linked(ns[..i] + ns[i + 1..]) && Distinct(ns[..i] + ns[i + 1..])
  {
    var ms := ns[..i] + ns[i + 1..];
    assert forall j :: 0 <= j < i ==> ms[j] == ns[j];
    assert forall j :: i <= j < |ms| ==> ms[j] == ns[j + 1];
  }

  /** The node after `o` in `ns`, or null when `o` is the last one. */
  ghost function NextIn<T>(ns: seq<Node<T>>, o: Node<T>): Node?<T>
    requires o in ns
  {
    var k :| 0 <= k < |ns| && ns[k] == o; if k + 1 < |ns| then ns[k + 1] else null
  }

  /** The node before `o` in `ns`, or null when `o` is the first one. */
  ghost function PrevIn<T>(ns: seq<Node<T>>, o: Node<T>): Node?<T>
    requires o in ns
  {
    var k :| 0 <= k < |ns| && ns[k] == o; if k > 0 then ns[k - 1] else null
  }

  /** Without repeated nodes, the neighbours of the node at position `k` are the nodes at `k - 1` and `k + 1`. */
  lemma NeighboursAt<T>(ns: seq<Node<T>>, k: int)
    requires Distinct(ns) && 0 <= k < |ns|
    ensures NextIn(ns, ns[k]) == if k + 1 < |ns| then ns[k + 1] else null
    ensures PrevIn(ns, ns[k]) == if k > 0 then ns[k - 1] else null
  {
  }

  /** In a linked sequence with open ends, each node's links are its neighbours. */
  lemma LinkedNeighbours<T>(ns: seq<Node<T>>)
    requires Linked(ns) && Distinct(ns) && (ns != [] ==> ns[0].prev == null && ns[|ns| - 1].next == null)
    ensures forall o {:trigger NextIn(ns, o)} :: o in ns ==> o.next == NextIn(ns, o)
    ensures forall o {:trigger PrevIn(ns, o)} :: o in ns ==> o.prev == PrevIn(ns, o)
  {
    forall o | o in ns ensures o.next == NextIn(ns, o) && o.prev == PrevIn(ns, o) {
      var k :| 0 <= k < |ns| && ns[k] == o;
      NeighboursAt(ns, k);
    }
  }

  /** The list object of lib/linked-list.js:17-32. */
  class LinkedList<T(==)> {
    var first: Node?<T>
    var last: Node?<T>
    var count: int

    /** The nodes from `first` to `last`. */
    ghost var Nodes: seq<Node<T>>
    /** The values of `Nodes`, in order: the list as `toArray` returns it. */
    ghost var Contents: seq<T>

    /**
     * `count` is the number of nodes; `first` and `last` are the ends (null
     * when empty) and have no outer links; each node's `prev` and `next` are
     * its neighbours in `Nodes`; no node occurs twice.
     */
    ghost predicate Valid()
      reads this, Nodes
    {
      && |Nodes| == count
      && HoldsValues(Nodes, Contents)
      && Distinct(Nodes)
      && (Nodes == [] ==> first == null && last == null)
      && (Nodes != [] ==> first == Nodes[0] && last == Nodes[|Nodes| - 1])
      && (Nodes != [] ==> first.prev == null && last.next == null)
      && Linked(Nodes)
    }

    /** The position of a node of the list. */
    ghost function IndexOf(n: Node<T>): (i: int)
      reads this
      requires n in Nodes
      ensures 0 <= i < |Nodes| && Nodes[i] == n
    {
      var i :| 0 <= i < |Nodes| && Nodes[i] == n; i
    }

    /**
     * A fresh node `m` spliced in at position `p` of the list `ns` gives a
     * valid list, when every other node still links to its old neighbours,
     * the two links across the gap point at `m` and back, and the ends moved
     * only where `m` is one.
     */
    lemma SplicedIn(ns: seq<Node<T>>, cs: seq<T>, p: int, m: Node<T>)
      requires 0 <= p <= |ns| && Distinct(ns) && HoldsValues(ns, cs) && forall j :: 0 <= j < |ns| ==> ns[j] != m
      requires forall o {:trigger NextIn(ns, o)} :: o in ns && (p == 0 || o != ns[p - 1]) ==> o.next == NextIn(ns, o)
      requires forall o {:trigger PrevIn(ns, o)} :: o in ns && (p == |ns| || o != ns[p]) ==> o.prev == PrevIn(ns, o)
      requires if p == 0 then m.prev == null && first == m else ns[p - 1].next == m && m.prev == ns[p - 1] && first == ns[0]
      requires if p == |ns| then m.next == null && last == m else ns[p].prev == m && m.next == ns[p] && last == ns[|ns| - 1]
      requires count == |ns| + 1
      requires Nodes == ns[..p] + [m] + ns[p..] && Contents == cs[..p] + [m.value] + cs[p..]
      ensures Valid()
    {
      forall j | 0 <= j < |ns| - 1 && j != p - 1 ensures ns[j].next == ns[j + 1] {
        NeighboursAt(ns, j);
        assert ns[j] in ns;
        assert p > 0 ==> ns[j] != ns[p - 1];
      }
      forall j | 0 < j < |ns| && j != p ensures ns[j].prev == ns[j - 1] {
        NeighboursAt(ns, j);
        assert ns[j] in ns;
        assert p < |ns| ==> ns[j] != ns[p];
      }
      if p > 0 {
        NeighboursAt(ns, 0);
        assert ns[0] in ns;
      }
      if p < |ns| {
        NeighboursAt(ns, |ns| - 1);
        assert ns[|ns| - 1] in ns;
      }
      LinkInsert(ns, p, m);
      ValuesInsert(ns, cs, p, m);
      assert Nodes[0] == if p == 0 then m else ns[0];
      assert Nodes[|Nodes| - 1] == if p == |ns| then m else ns[|ns| - 1];
    }

    /**
     * Cutting the node at position `i` out of the list `ns` gives a valid
     * list, when every other node still links to its old neighbours except
     * that the node's neighbours now point at each other, and the ends moved
     * only where the node was one.
     */
    lemma SplicedOut(ns: seq<Node<T>>, cs: seq<T>, i: int)
      requires 0 <= i < |ns| && Distinct(ns) && HoldsValues(ns, cs)
      requires forall o {:trigger NextIn(ns, o)} :: o in ns && (i == 0 || o != ns[i - 1]) ==> o.next == NextIn(ns, o)
      requires forall o {:trigger PrevIn(ns, o)} :: o in ns && (i == |ns| - 1 || o != ns[i + 1]) ==> o.prev == PrevIn(ns, o)
      requires if i == 0 then first == (if |ns| > 1 then ns[1] else null)
               else ns[i - 1].next == (if i < |ns| - 1 then ns[i + 1] else null) && first == ns[0]
      requires if i == |ns| - 1 then last == (if i > 0 then ns[i - 1] else null)
               else ns[i + 1].prev == (if i > 0 then ns[i - 1] else null) && last == ns[|ns| - 1]
      requires count == |ns| - 1
      requires Nodes == ns[..i] + ns[i + 1..] && Contents == cs[..i] + cs[i + 1..]
      ensures Valid()
    {
      forall j | 0 <= j < |ns| - 1 && j != i - 1 && j != i ensures ns[j].next == ns[j + 1] {
        NeighboursAt(ns, j);
        assert ns[j] in ns;
        assert i > 0 ==> ns[j] != ns[i - 1];
      }
      forall j | 0 < j < |ns| && j != i && j != i + 1 ensures ns[j].prev == ns[j - 1] {
        NeighboursAt(ns, j);
        assert ns[j] in ns;
        assert i < |ns| - 1 ==> ns[j] != ns[i + 1];
      }
      if i > 0 {
        NeighboursAt(ns, 0);
        assert ns[0] in ns;
      }
      if i < |ns| - 1 {
        NeighboursAt(ns, |ns| - 1);
        assert ns[|ns| - 1] in ns;
      }
      LinkRemove(ns, i);
      ValuesRemove(ns, cs, i);
      assert Nodes != [] ==> Nodes[0] == if i == 0 then ns[1] else ns[0];
      assert Nodes != [] ==> Nodes[|Nodes| - 1] == if i == |ns| - 1 then ns[|ns| - 2] else ns[|ns| - 1];
    }

    /**
     * The constructor (lib/linked-list.js:23-32): an array argument gives a
     * list of its elements in order, built by `addFirst` from the last
     * element down; anything else (`None`) gives the empty list.
     */
    constructor (arr: Option<seq<T>>)
      ensures Valid()
      ensures arr.Some? ==> Contents == arr.value && count == |arr.value|
      ensures arr.None? ==> Contents == [] && count == 0 && first == null && last == null
    {
      first := null;
      last := null;
      count := 0;
      Nodes := [];
      Contents := [];
      new;
      if arr.Some? {
        var a := arr.value;
        var i := |a|;
        while i > 0
          invariant 0 <= i <= |a|
          invariant Valid() && Contents == a[i..]
          invariant forall j :: 0 <= j < |Nodes| ==> fresh(Nodes[j])
        {
          i := i - 1;
          ghost var before := Nodes;
          AddFirst(a[i]);
          assert forall j :: 1 <= j < |Nodes| ==> Nodes[j] == before[j - 1];
          assert a[i..] == [a[i]] + a[i + 1..];
        }
      }
    }

    /** `addFirst` (lib/linked-list.js:117-128): a new node in front; it is also the last node of an empty list. */
    method AddFirst(val: T)
      requires Valid()
      modifies this, Nodes
      ensures Valid()
      ensures Contents == [val] + old(Contents)
      ensures count == old(count) + 1
      ensures fresh(first) && Nodes == [first] + old(Nodes)
      ensures last == if old(first) == null then first else old(last)
    {
      ghost var ns, cs := Nodes, Contents;
      LinkedNeighbours(ns);
      var newNode := new Node(val);
      if first != null {
        first.prev := newNode;
        newNode.next := first;
      } else {
        last := newNode;
      }
      first := newNode;
      count := count + 1;
      Nodes := [newNode] + ns;
      Contents := [val] + cs;
      assert Nodes == ns[..0] + [newNode] + ns[0..];
      assert Contents == cs[..0] + [val] + cs[0..];
      SplicedIn(ns, cs, 0, newNode);
    }

    /** `addLast` (lib/linked-list.js:136-147): a new node at the end; it is also the first node of an empty list. */
    method AddLast(val: T)
      requires Valid()
      modifies this, Nodes
      ensures Valid()
      ensures Contents == old(Contents) + [val]
      ensures count == old(count) + 1
      ensures fresh(last) && Nodes == old(Nodes) + [last]
      ensures first == if old(last) == null then last else old(first)
    {
      ghost var ns, cs := Nodes, Contents;
      LinkedNeighbours(ns);
      var newNode := new Node(val);
      if last != null {
        last.next := newNode;
        newNode.prev := last;
      } else {
        first := newNode;
      }
      last := newNode;
      count := count + 1;
      Nodes := ns + [newNode];
      Contents := cs + [val];
      assert Nodes == ns[..|ns|] + [newNode] + ns[|ns|..];
      assert Contents == cs[..|ns|] + [val] + cs[|ns|..];
      SplicedIn(ns, cs, |ns|, newNode);
    }

    /**
     * `addAfter` (lib/linked-list.js:69-85): a new node right after `node`,
     * which becomes the last node when `node` was. Without a node (null,
     * or anything that is not a `Node`) the list is unchanged.
     */
    method AddAfter(node: Node?<T>, val: T)
      requires Valid()
      requires node == null || node in Nodes
      modifies this, Nodes
      ensures Valid()
      ensures node == null ==>
        Nodes == old(Nodes) && Contents == old(Contents) && count == old(count) && first == old(first) && last == old(last)
      ensures node != null ==>
        var i := old(IndexOf(node));
        && |Nodes| == |old(Nodes)| + 1
        && fresh(Nodes[i + 1])
        && Nodes == old(Nodes)[..i + 1] + [Nodes[i + 1]] + old(Nodes)[i + 1..]
        && Contents == old(Contents)[..i + 1] + [val] + old(Contents)[i + 1..]
        && count == old(count) + 1
        && first == old(first)
        && last == if i == |old(Nodes)| - 1 then Nodes[i + 1] else old(last)
    {
      if node != null {
        ghost var i := IndexOf(node);
        ghost var ns, cs := Nodes, Contents;
        LinkedNeighbours(ns);
        assert node.next == if i < |ns| - 1 then ns[i + 1] else null;
        var newNode := new Node(val);
        newNode.next := node.next;
        newNode.prev := node;
        node.next := newNode;
        if newNode.next != null {
          newNode.next.prev := newNode;
        } else {
          last := newNode;
        }
        count := count + 1;
        Nodes := ns[..i + 1] + [newNode] + ns[i + 1..];
        Contents := cs[..i + 1] + [val] + cs[i + 1..];
        assert Nodes[i + 1] == newNode;
        SplicedIn(ns, cs, i + 1, newNode);
      }
    }

    /**
     * `addBefore` (lib/linked-list.js:94-109): a new node right before
     * `node`, which becomes the first node when `node` was. Without a node
     * the list is unchanged.
     */
    method AddBefore(node: Node?<T>, val: T)
      requires Valid()
      requires node == null || node in Nodes
      modifies this, Nodes
      ensures Valid()
      ensures node == null ==>
        Nodes == old(Nodes) && Contents == old(Contents) && count == old(count) && first == old(first) && last == old(last)
      ensures node != null ==>
        var i := old(IndexOf(node));
        && |Nodes| == |old(Nodes)| + 1
        && fresh(Nodes[i])
        && Nodes == old(Nodes)[..i] + [Nodes[i]] + old(Nodes)[i..]
        && Contents == old(Contents)[..i] + [val] + old(Contents)[i..]
        && count == old(count) + 1
        && last == old(last)
        && first == if i == 0 then Nodes[0] else old(first)
    {
      if node != null {
        ghost var i := IndexOf(node);
        ghost var ns, cs := Nodes, Contents;
        LinkedNeighbours(ns);
        assert node.prev == if i > 0 then ns[i - 1] else null;
        var newNode := new Node(val);
        newNode.next := node;
        newNode.prev := node.prev;
        node.prev := newNode;
        if newNode.prev != null {
          newNode.prev.next := newNode;
        } else {
          first := newNode;
        }
        count := count + 1;
        Nodes := ns[..i] + [newNode] + ns[i..];
        Contents := cs[..i] + [val] + cs[i..];
        assert Nodes[i] == newNode;
        SplicedIn(ns, cs, i, newNode);
      }
    }

    /**
     * `removeNode` (lib/linked-list.js:155-181): unlink `node`; its
     * neighbours are joined, and `first`/`last` move when it was at an end.
     * A null node leaves the list unchanged.
     */
    method RemoveNode(node: Node?<T>)
      requires Valid()
      requires node == null || node in Nodes
      modifies this, Nodes
      ensures Valid()
      ensures node == null ==>
        Nodes == old(Nodes) && Contents == old(Contents) && count == old(count) && first == old(first) && last == old(last)
      ensures node != null ==>
        var i := old(IndexOf(node));
        && Nodes == old(Nodes)[..i] + old(Nodes)[i + 1..]
        && Contents == old(Contents)[..i] + old(Contents)[i + 1..]
        && count == old(count) - 1
    {
      if node == null {
        return;
      }
      ghost var i := IndexOf(node);
      ghost var ns, cs := Nodes, Contents;
      LinkedNeighbours(ns);
      assert node.prev == if i == 0 then null else ns[i - 1];
      assert node.next == if i == |ns| - 1 then null else ns[i + 1];
      var prev := node.prev;
      var next := node.next;
      if prev != null {
        prev.next := next;
      } else {
        first := node.next;
        if first != null {
          first.prev := null;
        }
      }
      if next != null {
        next.prev := prev;
      } else {
        last := node.prev;
        if last != null {
          last.next := null;
        }
      }
      count := count - 1;
      Nodes := ns[..i] + ns[i + 1..];
      Contents := cs[..i] + cs[i + 1..];
      SplicedOut(ns, cs, i);
    }

    /** `removeFirst` (lib/linked-list.js:188-191): drop the first element; nothing happens to an empty list. */
    method RemoveFirst()
      requires Valid()
      modifies this, Nodes
      ensures Valid()
      ensures old(Contents) == [] ==> Contents == [] && count == 0
      ensures old(Contents) != [] ==> Contents == old(Contents)[1..] && count == old(count) - 1
    {
      RemoveNode(first);
    }

    /** `removeLast` (lib/linked-list.js:199-202): drop the last element; nothing happens to an empty list. */
    method RemoveLast()
      requires Valid()
      modifies this, Nodes
      ensures Valid()
      ensures old(Contents) == [] ==> Contents == [] && count == 0
      ensures old(Contents) != [] ==> Contents == old(Contents)[..|old(Contents)| - 1] && count == old(count) - 1
    {
      RemoveNode(last);
    }

    /**
     * `findByPosition` (lib/linked-list.js:210-227): the node at the 0-based
     * position, or null when the position is absent (`None`) or out of range.
     */
    method FindByPosition(pos: Option<int>) returns (node: Node?<T>)
      requires Valid()
      ensures pos.Some? && 0 <= pos.value < count ==> node == Nodes[pos.value] && node.value == Contents[pos.value]
      ensures !(pos.Some? && 0 <= pos.value < count) ==> node == null
    {
      if pos.None? {
        return null;
      }
      var p := pos.value;
      if p >= count || p < 0 {
        return null;
      }
      node := first;
      if p == 0 {
        return;
      }
      for i := 0 to p
        invariant node == Nodes[i]
      {
        if node == null {
          break;
        }
        node := node.next;
      }
    }

    /**
     * `findByValue` (lib/linked-list.js:236-250): the first node holding
     * `val`, or the last one when `getLast` is set; null when no node does.
     */
    method FindByValue(val: T, getLast: bool) returns (node: Node?<T>)
      requires Valid()
      ensures node == null <==> val !in Contents
      ensures node != null ==>
        && node in Nodes && node.value == val
        && (!getLast ==> val !in Contents[..IndexOf(node)])
        && (getLast ==> val !in Contents[IndexOf(node) + 1..])
    {
      node := null;
      var cursor := first;
      ghost var i := 0;
      ghost var found := 0;
      while cursor != null
        invariant 0 <= i <= |Nodes|
        invariant cursor == if i < |Nodes| then Nodes[i] else null
        invariant node == null ==> val !in Contents[..i]
        invariant !getLast ==> node == null
        invariant node != null ==>
          && 0 <= found < i && Nodes[found] == node && Contents[found] == val
          && val !in Contents[found + 1..i]
        decreases |Nodes| - i
      {
        assert cursor == Nodes[i];
        if val == cursor.value {
          node := cursor;
          found := i;
          if !getLast {
            break;
          }
        }
        cursor := cursor.next;
        i := i + 1;
      }
      if node == null {
        assert Contents[..i] == Contents;
      } else {
        assert Nodes[IndexOf(node)] == Nodes[found];
        assert IndexOf(node) == found;
        assert getLast ==> Contents[found + 1..i] == Contents[found + 1..];
      }
    }

    /** `toArray` (lib/linked-list.js:273-279), by `iterate` (lib/linked-list.js:259-266): the values from first to last. */
    method ToArray() returns (arr: seq<T>)
      requires Valid()
      ensures arr == Contents
    {
      arr := [];
      var node := first;
      ghost var i := 0;
      while node != null
        invariant 0 <= i <= |Nodes|
        invariant node == if i < |Nodes| then Nodes[i] else null
        invariant arr == Contents[..i]
        decreases |Nodes| - i
      {
        assert node == Nodes[i];
        arr := arr + [node.value];
        node := node.next;
        i := i + 1;
      }
    }

    /** `clear` (lib/linked-list.js:286-291): forget all nodes. */
    method Clear()
      modifies this
      ensures Valid()
      ensures Contents == [] && count == 0 && first == null && last == null
    {
      count := 0;
      first := null;
      last := null;
      Nodes := [];
      Contents := [];
    }

    /**
     * `equals` (lib/linked-list.js:303-332): false for a missing list;
     * otherwise true exactly when the counts agree and the values agree
     * position by position, compared with `comparator` when one is given
     * and by strict equality otherwise.
     */
    method Equals(other: LinkedList?<T>, comparator: Option<(T, T) -> bool>) returns (r: bool)
      requires Valid()
      requires other != null ==> other.Valid()
      ensures other == null ==> !r
      ensures other != null ==>
        (r <==> |Contents| == |other.Contents| && forall i :: 0 <= i < |Contents| ==> Same(comparator, Contents[i], other.Contents[i]))
    {
      if other == null {
        return false;
      }
      if count != other.count {
        return false;
      }
      var n1 := first;
      var n2 := other.first;
      ghost var i := 0;
      while n1 != null && n2 != null
        invariant 0 <= i <= |Nodes|
        invariant n1 == if i < |Nodes| then Nodes[i] else null
        invariant n2 == if i < |other.Nodes| then other.Nodes[i] else null
        invariant forall j :: 0 <= j < i ==> Same(comparator, Contents[j], other.Contents[j])
        decreases |Nodes| - i
      {
        assert n1 == Nodes[i] && n2 == other.Nodes[i];
        match comparator {
          case Some(cmp) =>
            if !cmp(n1.value, n2.value) {
              return false;
            }
          case None =>
            if n1.value != n2.value {
              return false;
            }
        }
        n1 := n1.next;
        n2 := n2.next;
        i := i + 1;
      }
      if n1 != null && n2 != null {
        return false;
      }
      return true;
    }

    /** `filter` (lib/linked-list.js:336-338): a new list of the elements that satisfy `p`. */
    method Filter(p: T -> bool) returns (r: LinkedList<T>)
      requires Valid()
      ensures fresh(r) && r.Valid()
      ensures r.Contents == FilterSeq(Contents, p)
    {
      var arr := ToArray();
      r := new LinkedList(Some(FilterSeq(arr, p)));
    }

    /** `map` (lib/linked-list.js:340-342): a new list of `f` of each element. */
    method Map<U(==)>(f: T -> U) returns (r: LinkedList<U>)
      requires Valid()
      ensures fresh(r) && r.Valid()
      ensures r.Contents == MapSeq(Contents, f)
    {
      var arr := ToArray();
      r := new LinkedList(Some(MapSeq(arr, f)));
    }

    /** `reduce` (lib/linked-list.js:344-346): fold the values from first to last, starting at `init`. */
    method Reduce<U>(f: (U, T) -> U, init: U) returns (r: U)
      requires Valid()
      ensures r == FoldLeft(f, init, Contents)
    {
      var arr := ToArray();
      r := FoldLeft(f, init, arr);
    }
  }
}
