/** The node graph of a BST seen as a value, and what the heap must hold for it.
    A `Tree` names, for every branch, the node object and the element it holds; the
    functions here give its in-order sequences, its search-tree order, and the set of
    link facts (`Facts`) that the `Node` objects must satisfy for the heap to be that tree. */
module Shapes {
  import opened TreeNode

  datatype Tree = Nil | Br(node: Node, data: int, left: Tree, right: Tree)

  /** What one node's fields must be. */
  datatype Fact = Fact(node: Node, data: int, left: Node?, right: Node?, parent: Node?)

  /** A tree with the node identities forgotten: its shape and its elements. */
  datatype Value = Empty | Branch(left: Value, data: int, right: Value)

  function RootOf(t: Tree): Node? {
    if t.Br? then t.node else null
  }

  function Nodes(t: Tree): set<Node> {
    match t
    case Nil => {}
    case Br(n, _, l, r) => Nodes(l) + {n} + Nodes(r)
  }

  function Count(t: Tree): nat {
    match t
    case Nil => 0
    case Br(_, _, l, r) => Count(l) + 1 + Count(r)
  }

  function Values(t: Tree): set<int> {
    match t
    case Nil => {}
    case Br(_, d, l, r) => Values(l) + {d} + Values(r)
  }

  /** The elements in in-order. */
  function Keys(t: Tree): seq<int> {
    match t
    case Nil => []
    case Br(_, d, l, r) => Keys(l) + [d] + Keys(r)
  }

  /** The nodes in in-order: the sequence an iterator walks from begin() to end(). */
  function Order(t: Tree): seq<Node> {
    match t
    case Nil => []
    case Br(n, _, l, r) => Order(l) + [n] + Order(r)
  }

  function Shape(t: Tree): Value {
    match t
    case Nil => Empty
    case Br(_, d, l, r) => Branch(Shape(l), d, Shape(r))
  }

  /** Search-tree order: the left subtree is smaller, the right subtree larger or equal. */
  predicate Ordered(t: Tree) {
    match t
    case Nil => true
    case Br(_, d, l, r) =>
      Ordered(l) && Ordered(r) &&
      (forall x | x in Values(l) :: x < d) &&
      (forall x | x in Values(r) :: d <= x)
  }

  /** No node object occurs twice. */
  predicate Distinct(t: Tree) {
    match t
    case Nil => true
    case Br(n, _, l, r) =>
      Distinct(l) && Distinct(r) && n !in Nodes(l) && n !in Nodes(r) && Nodes(l) !! Nodes(r)
  }

  /** The link facts of `t` when its root hangs below `p`: every child link and its parent back link agree. */
  function Facts(t: Tree, p: Node?): set<Fact> {
    match t
    case Nil => {}
    case Br(n, d, l, r) => {Fact(n, d, RootOf(l), RootOf(r), p)} + Facts(l, n) + Facts(r, n)
  }

  ghost predicate Matches(f: Fact)
    reads f.node
  {
    f.node.data == f.data && f.node.left == f.left && f.node.right == f.right && f.node.parent == f.parent
  }

  /** Every fact of `F` is about a node of `R` and holds in the heap. */
  ghost predicate Holds(F: set<Fact>, R: set<Node>)
    reads R
  {
    forall f | f in F :: f.node in R && Matches(f)
  }

  predicate Sorted(s: seq<int>) {
    forall i, j | 0 <= i < j < |s| :: s[i] <= s[j]
  }

  predicate NoDup(s: seq<Node>) {
    forall i, j | 0 <= i < j < |s| :: s[i] != s[j]
  }

  /** Position of `n` in the in-order sequence. */
  function Index(t: Tree, n: Node): (i: nat)
    requires n in Nodes(t)
    ensures i < |Order(t)| && Order(t)[i] == n && i < |Keys(t)|
  {
    match t
    case Br(m, _, l, r) =>
      OrderShape(l);
      if n in Nodes(l) then Index(l, n)
      else if n == m then |Order(l)|
      else |Order(l)| + 1 + Index(r, n)
  }

  /** The in-order successor of `n`, or null (end) when `n` is last or not a node of `t`. */
  function Succ(t: Tree, n: Node?): Node? {
    if n != null && n in Nodes(t) then
      var i := Index(t, n);
      if i + 1 < |Order(t)| then Order(t)[i + 1] else null
    else null
  }

  /** The in-order predecessor of `n`, or null when `n` is first or not a node of `t`. */
  function Pred(t: Tree, n: Node?): Node? {
    if n != null && n in Nodes(t) then
      var i := Index(t, n);
      if 0 < i then Order(t)[i - 1] else null
    else null
  }

  /** The first node in in-order, or null for the empty tree. */
  function First(t: Tree): Node? {
    if Order(t) == [] then null else Order(t)[0]
  }

  /** The nodes visited by `k` successive increments starting at `n`, stopping at end. */
  function Visit(t: Tree, n: Node?, k: nat): seq<Node> {
    if n == null || k == 0 then [] else [n] + Visit(t, Succ(t, n), k - 1)
  }

  // ---------------------------------------------------------------------------
  // Basic facts about the in-order sequences

  lemma {:induction false} OrderShape(t: Tree)
    ensures |Order(t)| == |Keys(t)| == Count(t)
    ensures forall n | n in Order(t) :: n in Nodes(t)
    ensures forall n | n in Nodes(t) :: n in Order(t)
    ensures forall x | x in Keys(t) :: x in Values(t)
    ensures forall x | x in Values(t) :: x in Keys(t)
  {
    match t
    case Nil =>
    case Br(_, _, l, r) =>
      OrderShape(l);
      OrderShape(r);
  }

  lemma NoDupJoin(a: seq<Node>, n: Node, b: seq<Node>)
    requires NoDup(a) && NoDup(b) && n !in a && n !in b
    requires forall x | x in a :: x !in b
    ensures NoDup(a + [n] + b)
  {
    var s := a + [n] + b;
    forall i, j | 0 <= i < j < |s| ensures s[i] != s[j] {
      if j < |a| {
        assert s[i] == a[i] && s[j] == a[j];
      } else if |a| < i {
        assert s[i] == b[i - |a| - 1] && s[j] == b[j - |a| - 1];
      } else if i < |a| {
        assert s[i] == a[i] && a[i] in a;
        if j == |a| {
          assert s[j] == n;
        } else {
          assert s[j] == b[j - |a| - 1] && s[j] in b;
        }
      } else {
        assert s[i] == n && s[j] == b[j - |a| - 1];
      }
    }
  }

  lemma {:induction false} DistinctCount(t: Tree)
    requires Distinct(t)
    ensures |Nodes(t)| == Count(t)
  {
    match t
    case Nil =>
    case Br(n, _, l, r) =>
      DistinctCount(l);
      DistinctCount(r);
      var L := Nodes(l) + {n};
      assert |L| == |Nodes(l)| + 1;
      assert L * Nodes(r) == {};
      assert |L + Nodes(r)| == |L| + |Nodes(r)|;
  }

  lemma {:induction false} DistinctOrder(t: Tree)
    requires Distinct(t)
    ensures NoDup(Order(t))
  {
    match t
    case Nil =>
    case Br(n, _, l, r) =>
      DistinctOrder(l);
      DistinctOrder(r);
      OrderShape(l);
      OrderShape(r);
      assert forall x | x in Order(l) :: x !in Order(r);
      NoDupJoin(Order(l), n, Order(r));
  }

  /** The in-order element sequence of a search tree is sorted. */
  lemma {:induction false} OrderedSorted(t: Tree)
    requires Ordered(t)
    ensures Sorted(Keys(t))
  {
    match t
    case Nil =>
    case Br(_, d, l, r) =>
      OrderedSorted(l);
      OrderedSorted(r);
      OrderShape(l);
      OrderShape(r);
      var s := Keys(t);
      var a := |Keys(l)|;
      forall i, j | 0 <= i < j < |s| ensures s[i] <= s[j] {
        if j < a {
          assert s[i] == Keys(l)[i] && s[j] == Keys(l)[j];
        } else if a < i {
          assert s[i] == Keys(r)[i - a - 1] && s[j] == Keys(r)[j - a - 1];
        } else {
          assert i < a ==> s[i] == Keys(l)[i] && s[i] in Values(l);
          assert i == a ==> s[i] == d;
          assert j == a ==> s[j] == d;
          assert a < j ==> s[j] == Keys(r)[j - a - 1] && s[j] in Values(r);
        }
      }
  }

  /** In a tree without repeated nodes, `Index` is the one position holding the node. */
  lemma IndexAt(t: Tree, j: nat)
    requires Distinct(t) && j < |Order(t)|
    ensures Order(t)[j] in Nodes(t) && Index(t, Order(t)[j]) == j
  {
    OrderShape(t);
    DistinctOrder(t);
    var n := Order(t)[j];
    var i := Index(t, n);
    assert Order(t)[i] == n;
  }

  /** Successor and predecessor read off a split of the in-order sequence around `n`. */
  lemma SuccSplit(t: Tree, a: seq<Node>, n: Node, b: seq<Node>)
    requires Distinct(t) && Order(t) == a + [n] + b
    ensures Succ(t, n) == (if b == [] then null else b[0])
    ensures Pred(t, n) == (if a == [] then null else a[|a| - 1])
  {
    IndexAt(t, |a|);
    assert Order(t)[|a|] == n;
    if b != [] {
      assert Order(t)[|a| + 1] == b[0];
    }
    if a != [] {
      assert Order(t)[|a| - 1] == a[|a| - 1];
    }
  }

  /** Stepping forward from the i-th node visits the rest of the in-order sequence, then reaches end. */
  lemma {:induction false} VisitFrom(t: Tree, i: nat)
    requires Distinct(t) && i < |Order(t)|
    ensures Visit(t, Order(t)[i], |Order(t)| - i) == Order(t)[i..]
    decreases |Order(t)| - i
  {
    IndexAt(t, i);
    if i + 1 < |Order(t)| {
      VisitFrom(t, i + 1);
      assert Order(t)[i..] == [Order(t)[i]] + Order(t)[i + 1..];
    }
  }

  /** Iterating from begin() to end() yields exactly the in-order sequence, and one more step gives end. */
  lemma IterationIsInOrder(t: Tree)
    requires Distinct(t)
    ensures Visit(t, First(t), Count(t)) == Order(t)
    ensures |Order(t)| == Count(t)
    ensures Count(t) > 0 ==> Succ(t, Order(t)[Count(t) - 1]) == null
  {
    OrderShape(t);
    if Count(t) > 0 {
      VisitFrom(t, 0);
      IndexAt(t, Count(t) - 1);
    }
  }

  /** The neighbours of the node at position `i` are the nodes at positions `i + 1` and `i - 1`. */
  lemma Neighbours(t: Tree, i: nat)
    requires Distinct(t) && i < |Order(t)|
    ensures Succ(t, Order(t)[i]) == (if i + 1 < |Order(t)| then Order(t)[i + 1] else null)
    ensures Pred(t, Order(t)[i]) == (if 0 < i then Order(t)[i - 1] else null)
  {
    IndexAt(t, i);
  }

  /** For interior positions, decrement undoes increment and increment undoes decrement. */
  lemma StepInverse(t: Tree, n: Node)
    requires Distinct(t) && n in Nodes(t)
    ensures Succ(t, n) != null ==> Pred(t, Succ(t, n)) == n
    ensures Pred(t, n) != null ==> Succ(t, Pred(t, n)) == n
  {
    var i := Index(t, n);
    Neighbours(t, i);
    if i + 1 < |Order(t)| {
      Neighbours(t, i + 1);
    }
    if 0 < i {
      Neighbours(t, i - 1);
    }
  }

  // ---------------------------------------------------------------------------
  // Facts

  lemma {:induction false} FactsAbout(t: Tree, p: Node?)
    ensures forall f | f in Facts(t, p) :: f.node in Nodes(t)
  {
    match t
    case Nil =>
    case Br(n, d, l, r) =>
      FactsAbout(l, n);
      FactsAbout(r, n);
  }

  /** The facts of one node are determined by the tree: a node's fact names its own children. */
  lemma RootFact(t: Tree, p: Node?)
    requires t.Br?
    ensures Fact(t.node, t.data, RootOf(t.left), RootOf(t.right), p) in Facts(t, p)
    ensures Facts(t.left, t.node) <= Facts(t, p) && Facts(t.right, t.node) <= Facts(t, p)
  {
  }
}
