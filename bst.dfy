/** The binary search tree (BST<T>) with `int` elements, its in-order iterator, and the
    operations on them. The node graph lives in the heap; the ghost field `shape` names the
    tree that graph is, and all contracts are stated in terms of it. */
module BinarySearchTree {
  import opened TreeNode
  import opened Shapes
  import opened Paths
  import opened Links
  import opened Updates
  import opened Successor
  import opened Bulk

  /** The position of an in-order walk: a node, or `null` for end(). Copying an iterator copies
      the pointer, so it is a value. */
  datatype Iterator = Iterator(pNode: Node?) {

    /** Prefix `++`: the next node in in-order, or end() after the last one; end() stays end(). */
    method Increment(ghost t: Tree) returns (next: Iterator)
      requires Distinct(t) && Holds(Facts(t, null), Nodes(t))
      requires pNode == null || pNode in Nodes(t)
      ensures next.pNode == Succ(t, pNode)
    {
      if pNode == null {
        return this;
      }
      var cur := pNode;
      ghost var cs := Locate(t, cur);
      ghost var c, s := cs.0, cs.1;
      LinksAt(c, s, null, Nodes(t));
      if cur.right != null {
        PlugFacts(c, s, null);
        RootLinks(s, Above(c, null), Facts(t, null), Nodes(t));
        ghost var c2, s2;
        cur, c2, s2 := Leftmost(cur.right, s.right, pNode, Facts(t, null), Nodes(t));
        SuccDown(c, s);
        return Iterator(cur);
      }
      OrderShape(s.right);
      ghost var a := Order(s.left);
      assert Order(s) == a + [pNode];
      if cur.parent == null {
        // the root has no successor above it
        SuccUp(c, s, a, pNode);
        return Iterator(null);
      }
      if cur.parent.left == cur {
        PlugDistinct(c, s);
        SuccUp(c, s, a, pNode);
        return Iterator(cur.parent);
      }
      if cur.parent.right == cur {
        // up past every ancestor whose right subtree we are in
        while cur.parent != null && cur.parent.right == cur
          invariant Plug(c, s) == t && s.Br? && cur == s.node && Order(s) == a + [pNode]
          invariant cur.parent == Above(c, null) && Holds(Facts(t, null), Nodes(t))
          invariant !c.Top? ==> c.node in Nodes(t)
          invariant c.InL? ==> c.node.right == RootOf(c.right)
          invariant c.InR? ==> c.node.right == cur
          decreases c
        {
          PlugDistinct(c, s);
          assert c.InR? && Plug(c.up, Br(c.node, c.data, c.left, s)) == t;
          a := Order(c.left) + [c.node] + a;
          s := Br(c.node, c.data, c.left, s);
          c := c.up;
          cur := cur.parent;
          LinksAt(c, s, null, Nodes(t));
        }
        PlugDistinct(c, s);
        SuccUp(c, s, a, pNode);
        return Iterator(cur.parent);
      }
      assert false;
      return Iterator(null);
    }

    /** Prefix `--`: the previous node in in-order, or end() before the first one; end() stays end(). */
    method Decrement(ghost t: Tree) returns (prev: Iterator)
      requires Distinct(t) && Holds(Facts(t, null), Nodes(t))
      requires pNode == null || pNode in Nodes(t)
      ensures prev.pNode == Pred(t, pNode)
    {
      if pNode == null {
        return this;
      }
      var cur := pNode;
      ghost var cs := Locate(t, cur);
      ghost var c, s := cs.0, cs.1;
      LinksAt(c, s, null, Nodes(t));
      if cur.left != null {
        PlugFacts(c, s, null);
        RootLinks(s, Above(c, null), Facts(t, null), Nodes(t));
        cur := Rightmost(cur.left, s.left, pNode, Facts(t, null), Nodes(t));
        PredDown(c, s);
        return Iterator(cur);
      }
      ghost var b := Order(s.right);
      assert Order(s) == [pNode] + b;
      if cur.parent == null {
        // the root has no predecessor above it
        PredUp(c, s, pNode, b);
        return Iterator(null);
      }
      if cur.parent.right == cur {
        PlugDistinct(c, s);
        PredUp(c, s, pNode, b);
        return Iterator(cur.parent);
      }
      if cur.parent.left == cur {
        // up past every ancestor whose left subtree we are in
        while cur.parent != null && cur.parent.left == cur
          invariant Plug(c, s) == t && s.Br? && cur == s.node && Order(s) == [pNode] + b
          invariant cur.parent == Above(c, null) && Holds(Facts(t, null), Nodes(t))
          invariant !c.Top? ==> c.node in Nodes(t)
          invariant c.InR? ==> c.node.left == RootOf(c.left)
          invariant c.InL? ==> c.node.left == cur
          decreases c
        {
          PlugDistinct(c, s);
          assert c.InL? && Plug(c.up, Br(c.node, c.data, s, c.right)) == t;
          b := b + [c.node] + Order(c.right);
          s := Br(c.node, c.data, s, c.right);
          c := c.up;
          cur := cur.parent;
          LinksAt(c, s, null, Nodes(t));
        }
        PlugDistinct(c, s);
        PredUp(c, s, pNode, b);
        return Iterator(cur.parent);
      }
      assert false;
      return this;
    }
  }

  /** The leftmost node below `n`, found by following left links (the descents of ++, begin()
      and erase): the first node of the subtree rooted at `n` in in-order. */
  method Leftmost(n: Node, ghost u: Tree, ghost q: Node?, ghost F: set<Fact>, ghost R: set<Node>)
    returns (m: Node, ghost c2: Ctx, ghost s2: Tree)
    requires u.Br? && u.node == n && Facts(u, q) <= F && Holds(F, R)
    ensures Plug(c2, s2) == u && LeftPath(c2) && s2.Br? && s2.left.Nil? && s2.node == m
    ensures Min(u) == s2 && Order(u)[0] == m
    ensures Facts(s2, Above(c2, q)) <= F
  {
    m, c2, s2 := n, Top, u;
    RootLinks(s2, q, F, R);
    while m.left != null
      invariant Plug(c2, s2) == u && LeftPath(c2) && s2.Br? && s2.node == m
      invariant Facts(s2, Above(c2, q)) <= F && m.left == RootOf(s2.left)
      decreases s2
    {
      c2, s2 := InL(m, s2.data, s2.right, c2), s2.left;
      m := m.left;
      RootLinks(s2, Above(c2, q), F, R);
    }
    MinPlug(c2, s2);
    MinParts(u);
  }

  /** The rightmost node below `n`, found by following right links (the descent of --): the
      last node of the subtree rooted at `n` in in-order. */
  method Rightmost(n: Node, ghost u: Tree, ghost q: Node?, ghost F: set<Fact>, ghost R: set<Node>)
    returns (m: Node)
    requires u.Br? && u.node == n && Facts(u, q) <= F && Holds(F, R)
    ensures |Order(u)| > 0 && Order(u)[|Order(u)| - 1] == m
  {
    m := n;
    ghost var s2, p, b := u, q, [];
    RootLinks(s2, p, F, R);
    while m.right != null
      invariant s2.Br? && s2.node == m && Order(u) == b + Order(s2)
      invariant Facts(s2, p) <= F && m.right == RootOf(s2.right)
      decreases s2
    {
      assert Order(s2) == (Order(s2.left) + [m]) + Order(s2.right);
      b := b + (Order(s2.left) + [m]);
      p, s2 := m, s2.right;
      m := m.right;
      RootLinks(s2, p, F, R);
    }
    assert Order(s2) == Order(s2.left) + [m];
  }

  class BST {
    var root: Node?
    var numElements: nat
    ghost var shape: Tree
    ghost var Repr: set<Node>

    /** The node graph from `root` is the search tree `shape`, without repeated nodes, with
        the root's parent link null and every child's parent link pointing back. */
    ghost predicate WellFormed()
      reads this, Repr
    {
      Distinct(shape) && Ordered(shape) && root == RootOf(shape) && Repr == Nodes(shape)
      && Holds(Facts(shape, null), Repr)
    }

    /** ... and `numElements` counts its nodes. */
    ghost predicate Valid()
      reads this, Repr
    {
      WellFormed() && numElements == Count(shape)
    }

    /** The empty tree. */
    constructor ()
      ensures Valid() && shape == Nil && Repr == {}
    {
      root := null;
      numElements := 0;
      shape := Nil;
      Repr := {};
    }

    /** size(): the number of elements. */
    function Size(): (n: nat)
      reads this, Repr
      ensures Valid() ==> n == |Keys(shape)|
    {
      OrderShape(shape);
      numElements
    }

    /** empty(): whether there are no elements. */
    function Empty(): (e: bool)
      reads this, Repr
      ensures Valid() ==> (e <==> Keys(shape) == [])
    {
      Size() == 0
    }

    /** An iterator's element is the element at its node's in-order position. */
    lemma Deref(it: Iterator)
      requires Valid() && it.pNode != null && it.pNode in Repr
      ensures it.pNode.data == Keys(shape)[Index(shape, it.pNode)]
    {
      var cs := Locate(shape, it.pNode);
      LinksAt(cs.0, cs.1, null, Repr);
      IndexPlug(cs.0, cs.1);
      PlugKeysAt(cs.0, cs.1);
      LengthsAt(cs.0, cs.1);
      var a := BeforeKeys(cs.0) + Keys(cs.1.left);
      assert Keys(shape)[|a|] == cs.1.data;
    }

    /** Two iterators at in-order positions are equal exactly when the positions are. */
    lemma IteratorsEqual(i: nat, j: nat)
      requires Valid() && i < |Order(shape)| && j < |Order(shape)|
      ensures Iterator(Order(shape)[i]) == Iterator(Order(shape)[j]) <==> i == j
    {
      DistinctOrder(shape);
    }

    /** begin(): the first node in in-order, or end() for the empty tree. */
    method Begin() returns (it: Iterator)
      requires Valid()
      ensures it.pNode == First(shape)
    {
      if root == null {
        return Iterator(null);
      }
      var p, c2, s2 := Leftmost(root, shape, null, Facts(shape, null), Repr);
      return Iterator(p);
    }

    /** find(x): the node where the search for `x` meets it, or end() when it is absent. */
    method Find(x: int) returns (it: Iterator)
      requires Valid()
      ensures it.pNode == Lookup(shape, x)
      ensures it.pNode != null ==> it.pNode in Repr && it.pNode.data == x
      ensures it.pNode == null <==> x !in Values(shape)
    {
      LookupAbsent(shape, x);
      var p := root;
      ghost var u, q := shape, null;
      while p != null
        invariant RootOf(u) == p && Lookup(u, x) == Lookup(shape, x) && Facts(u, q) <= Facts(shape, null)
        decreases u
      {
        RootLinks(u, q, Facts(shape, null), Repr);
        if p.data == x {
          return Iterator(p);
        }
        if x < p.data {
          q, u := p, u.left;
          p := p.left;
        } else {
          q, u := p, u.right;
          p := p.right;
        }
      }
      return Iterator(null);
    }

    /** insert(x, keepUnique): with keepUnique and `x` already present, the node the search
        meets and false; otherwise a new node holding `x` hung where the search for `x` ends,
        and true. */
    method Insert(x: int, keepUnique: bool) returns (it: Iterator, inserted: bool)
      requires Valid()
      modifies this, Repr
      ensures Valid()
      ensures keepUnique && old(Lookup(shape, x)) != null ==>
        !inserted && it.pNode == old(Lookup(shape, x)) && shape == old(shape) && Repr == old(Repr)
      ensures !(keepUnique && old(Lookup(shape, x)) != null) ==>
        inserted && it.pNode != null && fresh(it.pNode) && it.pNode.data == x &&
        shape == Ins(old(shape), x, it.pNode) && Repr == old(Repr) + {it.pNode}
    {
      if root == null {
        assert numElements == 0;
        root := new Node(x);
        numElements := 1;
        shape := Br(root, x, Nil, Nil);
        Repr := {root};
        return Iterator(root), true;
      }
      var node := root;
      ghost var c, s := Top, shape;
      while true
        invariant Valid() && shape == old(shape) && Repr == old(Repr)
        invariant Plug(c, s) == shape && s.Br? && s.node == node && OnPath(c, x)
        invariant keepUnique ==> Lookup(s, x) == Lookup(shape, x)
        decreases s
      {
        LinksAt(c, s, null, Repr);
        if keepUnique && x == node.data {
          return Iterator(node), false;
        }
        var toLeft := x < node.data;
        var next := if toLeft then node.left else node.right;
        if next == null {
          var k := Link(node, x, toLeft, c, s);
          numElements := numElements + 1;
          InsValues(old(shape), x, k);
          return Iterator(k), true;
        }
        if toLeft {
          c, s := InL(node, s.data, s.right, c), s.left;
        } else {
          c, s := InR(node, s.data, s.left, c), s.right;
        }
        node := next;
      }
    }

    /** Hang a new node holding `x` at the null link of `node` where the search for `x` ends:
        node->addLeft(t) when `x` is smaller, node->addRight(t) otherwise. */
    method Link(node: Node, x: int, toLeft: bool, ghost c: Ctx, ghost s: Tree) returns (k: Node)
      requires WellFormed() && Plug(c, s) == shape && s.Br? && s.node == node && OnPath(c, x)
      requires toLeft ==> x < s.data && s.left.Nil?
      requires !toLeft ==> s.data <= x && s.right.Nil?
      modifies this, node
      ensures fresh(k) && k.data == x
      ensures WellFormed() && shape == Ins(old(shape), x, k) && Repr == old(Repr) + {k}
      ensures root == old(root) && numElements == old(numElements)
    {
      PlugDistinct(c, s);
      ghost var t';
      k, t' := Attach(node, x, toLeft, c, s, Repr);
      assert t' == Ins(shape, x, k) by {
        InsPlug(c, s, x, k);
      }
      assert Distinct(t') && Ordered(t') && Nodes(t') == Repr + {k} && RootOf(t') == root by {
        InsNodes(shape, x, k);
        InsDistinct(shape, x, k);
        InsOrdered(shape, x, k);
      }
      shape, Repr := t', Repr + {k};
    }

    /** deleteNode(pDelete, toRight): splice out `d`, which has no left child (`toRight`) or
        no right child, by hanging its other subtree where it was; when `d` is the root that
        subtree becomes the tree. */
    method DeleteNode(d: Node, toRight: bool, ghost c: Ctx, ghost s: Tree)
      requires WellFormed() && Plug(c, s) == shape && s.Br? && s.node == d
      requires toRight ==> s.left.Nil?
      requires !toRight ==> s.right.Nil?
      modifies this, Repr
      ensures WellFormed() && shape == Plug(c, RemoveRoot(s)) && Repr == old(Repr) - {d}
      ensures numElements == old(numElements)
    {
      LinksAt(c, s, null, Repr);
      var pNext := if toRight then d.right else d.left;
      SpliceShape(c, s, root, Repr);
      if d != root {
        Rehang(d.parent, d, pNext, c, s, Repr);
      } else {
        root := pNext;
        Detach(pNext, c, s, Repr);
      }
      ghost var t' := Plug(c, RemoveRoot(s));
      HoldsSub(Facts(t', null), Facts(t', null), Repr, Repr - {d});
      shape, Repr := t', Repr - {d};
    }

    /** erase(it): end() gives end(); otherwise the node `d` of `it` leaves the tree and the
        iterator to its old in-order successor comes back. Without a left or a right child,
        `d` is spliced out by deleteNode; with both, its in-order successor takes its place. */
    method Erase(it: Iterator) returns (next: Iterator)
      requires Valid() && (it.pNode == null || it.pNode in Repr)
      modifies this, Repr
      ensures Valid()
      ensures it.pNode == null ==> next.pNode == null && shape == old(shape) && Repr == old(Repr)
      ensures it.pNode != null ==>
        shape == Remove(old(shape), it.pNode) && Repr == old(Repr) - {it.pNode} && next.pNode == Succ(old(shape), it.pNode)
    {
      if it.pNode == null {
        return Iterator(null);
      }
      var d := it.pNode;
      RemoveNodes(shape, d);
      numElements := numElements - 1;
      ghost var cs := Locate(shape, d);
      ghost var c, s := cs.0, cs.1;
      LinksAt(c, s, null, Repr);
      if d.left == null {
        next := it.Increment(shape);
        DeleteNode(d, true, c, s);
      } else if d.right == null {
        next := it.Increment(shape);
        DeleteNode(d, false, c, s);
      } else {
        SuccDown(c, s);
        MinParts(s.right);
        var S := ReplaceBySuccessor(d, c, s);
        next := Iterator(S);
      }
    }

    /** erase's third case: `d` has two subtrees; its in-order successor, the first node of
        its right subtree, takes its place (and becomes the root when `d` was). */
    method ReplaceBySuccessor(d: Node, ghost c: Ctx, ghost s: Tree) returns (S: Node)
      requires WellFormed() && Plug(c, s) == shape && s.Br? && s.node == d && s.left.Br? && s.right.Br?
      modifies this, Repr
      ensures WellFormed() && shape == Plug(c, RemoveRoot(s)) && Repr == old(Repr) - {d}
      ensures S == Min(s.right).node && numElements == old(numElements)
    {
      SpliceShape(c, s, root, Repr);
      S := SpliceSuccessor(d, c, s, Repr);
      if root == d {
        root := S;
      }
      ghost var t' := Plug(c, RemoveRoot(s));
      HoldsSub(Facts(t', null), Facts(t', null), Repr, Repr - {d});
      shape, Repr := t', Repr - {d};
    }

    /** clear(): release every node and leave the tree empty. */
    method Clear()
      requires Valid()
      modifies this, Repr
      ensures Valid() && shape == Nil && Repr == {} && root == null && numElements == 0
      ensures Cleared(old(Repr))
    {
      if root != null {
        BuiltOf(shape, null, Repr);
        DeleteBinaryTree(root, shape);
        root := null;
        numElements := 0;
      }
      shape, Repr := Nil, {};
    }

    /** operator=(rhs): copyBinaryTree(rhs.root, root), reusing the nodes of this tree where
        both trees have one, then the element count of `rhs`. The copy shares no node with `rhs`. */
    method Assign(rhs: BST)
      requires Valid() && rhs.Valid() && this != rhs && Repr !! rhs.Repr
      modifies this, Repr
      ensures Valid() && rhs.Valid() && Repr !! rhs.Repr
      ensures Shape(shape) == Shape(rhs.shape) && Keys(shape) == Keys(rhs.shape)
      ensures rhs.shape == old(rhs.shape) && rhs.Repr == old(rhs.Repr)
    {
      BuiltOf(shape, null, Repr);
      BuiltOf(rhs.shape, null, rhs.Repr);
      var nd, nu := CopyBinaryTree(rhs.root, rhs.shape, root, shape, rhs.Repr);
      assert rhs.Valid();
      CopyWellFormed(nd, nu, rhs.shape);
      root, numElements, shape, Repr := nd, rhs.numElements, nu, Nodes(nu);
    }

    /** BST(rhs): an empty tree, then operator=(rhs). */
    constructor Copy(rhs: BST)
      requires rhs.Valid()
      ensures Valid() && rhs.Valid() && Repr !! rhs.Repr
      ensures Shape(shape) == Shape(rhs.shape) && Keys(shape) == Keys(rhs.shape)
    {
      root, numElements := null, 0;
      shape, Repr := Nil, {};
      new;
      Assign(rhs);
    }

    /** BST(&&rhs): take the nodes and count of `rhs`, which is left empty. */
    constructor Move(rhs: BST)
      requires rhs.Valid()
      modifies rhs
      ensures Valid() && rhs.Valid() && rhs.shape == Nil && rhs.Repr == {}
      ensures shape == old(rhs.shape) && Repr == old(rhs.Repr)
    {
      root, numElements := rhs.root, rhs.numElements;
      shape, Repr := rhs.shape, rhs.Repr;
      new;
      rhs.root, rhs.numElements := null, 0;
      rhs.shape, rhs.Repr := Nil, {};
    }

    /** operator=(il): deleteBinaryTree(root) and a zero count, which is what clear() does,
        then insert(x) for each `x` of `xs` in turn, duplicates included: the elements are
        those of `xs`, in sorted order. */
    method AssignList(xs: seq<int>)
      requires Valid()
      modifies this, Repr
      ensures Valid() && multiset(Keys(shape)) == multiset(xs) && Sorted(Keys(shape))
      ensures Cleared(old(Repr)) && fresh(Repr)
    {
      ghost var released := Repr;
      Clear();
      var i := 0;
      while i < |xs|
        invariant i <= |xs| && Valid() && fresh(Repr) && Cleared(released)
        invariant multiset(Keys(shape)) == multiset(xs[..i])
      {
        ghost var t := shape;
        assert Repr !! released;
        var it, inserted := Insert(xs[i], false);
        InsertedElements(t, it.pNode, xs, i);
        i := i + 1;
      }
      WholePrefix(xs);
      OrderedSorted(shape);
    }

    /** BST(il): an empty tree, then operator=(il). */
    constructor FromList(xs: seq<int>)
      ensures Valid() && multiset(Keys(shape)) == multiset(xs) && Sorted(Keys(shape))
    {
      numElements, root := 0, null;
      shape, Repr := Nil, {};
      new;
      AssignList(xs);
    }

    /** swap(rhs): exchange roots and counts. */
    method Swap(rhs: BST)
      requires Valid() && rhs.Valid()
      modifies this, rhs
      ensures Valid() && rhs.Valid()
      ensures shape == old(rhs.shape) && Repr == old(rhs.Repr) && rhs.shape == old(shape) && rhs.Repr == old(Repr)
    {
      root, rhs.root := rhs.root, root;
      numElements, rhs.numElements := rhs.numElements, numElements;
      shape, rhs.shape := rhs.shape, shape;
      Repr, rhs.Repr := rhs.Repr, Repr;
    }

    /** operator=(&&rhs): clear(), then swap(rhs); `rhs` is left empty. Moving a tree onto
        itself empties it. */
    method AssignMove(rhs: BST)
      requires Valid() && rhs.Valid() && (this == rhs || Repr !! rhs.Repr)
      modifies this, Repr, rhs
      ensures Valid() && rhs.Valid() && rhs.shape == Nil && rhs.Repr == {}
      ensures this != rhs ==> shape == old(rhs.shape) && Repr == old(rhs.Repr)
      ensures Cleared(old(Repr))
    {
      Clear();
      Swap(rhs);
    }
  }

  /** A tidy copy of a search tree, hung below no node, is a well-formed tree of the same
      elements. */
  lemma CopyWellFormed(nd: Node?, nu: Tree, su: Tree)
    requires Copied(nd, nu, su) && Ordered(su) && (nd != null ==> nd.parent == null)
    ensures Distinct(nu) && Ordered(nu) && RootOf(nu) == nd && Holds(Facts(nu, null), Nodes(nu))
    ensures Count(nu) == Count(su) && Keys(nu) == Keys(su)
  {
    SameShape(nu, su);
  }

  /** Inserting the next element of `xs` into a tree holding its prefix of length `i`
      gives a tree holding the prefix of length `i + 1`. */
  lemma InsertedElements(t: Tree, k: Node, xs: seq<int>, i: nat)
    requires i < |xs| && multiset(Keys(t)) == multiset(xs[..i])
    ensures multiset(Keys(Ins(t, xs[i], k))) == multiset(xs[..i + 1])
  {
    InsKeys(t, xs[i], k);
    PrefixElements(xs, i);
  }

  /** The elements of a prefix one longer. */
  lemma PrefixElements(xs: seq<int>, i: nat)
    requires i < |xs|
    ensures multiset(xs[..i + 1]) == multiset(xs[..i]) + multiset{xs[i]}
  {
    assert xs[..i + 1] == xs[..i] + [xs[i]];
  }

  /** The prefix of `xs` as long as `xs`. */
  lemma WholePrefix(xs: seq<int>)
    ensures xs[..|xs|] == xs
  {
  }

  /** The heap update of insert: a new leaf holding `x` below `node`, the root of the hole of `c`. */
  method Attach(node: Node, x: int, toLeft: bool, ghost c: Ctx, ghost s: Tree, ghost R: set<Node>)
    returns (k: Node, ghost t': Tree)
    requires Distinct(Plug(c, s)) && Holds(Facts(Plug(c, s), null), R) && Nodes(Plug(c, s)) == R
    requires s.Br? && s.node == node && OnPath(c, x)
    requires toLeft ==> x < s.data && s.left.Nil?
    requires !toLeft ==> s.data <= x && s.right.Nil?
    modifies node
    ensures fresh(k) && k.data == x && k !in R
    ensures t' == Plug(c, Ins(s, x, k)) && Holds(Facts(t', null), R + {k})
  {
    ghost var F := Facts(Plug(c, s), null);
    LinksAt(c, s, null, R);
    ghost var A := Above(c, null);
    HoldsOutsideOf(F, R, {node});
    if toLeft {
      node.AddLeftValue(x);
      k := node.left;
    } else {
      node.AddRightValue(x);
      k := node.right;
    }
    ghost var leaf := Br(k, x, Nil, Nil);
    ghost var s' := if toLeft then Br(node, s.data, leaf, s.right) else Br(node, s.data, s.left, leaf);
    assert Ins(s, x, k) == s';
    t' := Plug(c, s');
    assert Distinct(t') by {
      InsPlug(c, s, x, k);
      InsDistinct(Plug(c, s), x, k);
    }
    ghost var e1, e2 := Fact(node, s.data, RootOf(s'.left), RootOf(s'.right), A), Fact(k, x, null, null, node);
    ghost var E, G, W := {e1, e2}, Facts(t', null), {node, k};
    LeafFacts(c, s, s', e1, e2, F, G, E, W);
    HoldsPair(e1, e2);
    Reestablish(F, R, {node}, G, E, W);
    assert R + W == R + {k};
  }

  /** The link facts after a leaf is hung below the root of the hole: those of the old tree,
      except the fact of that root, plus the fact of the leaf; and these two are the only
      facts about the two nodes. */
  lemma LeafFacts(c: Ctx, s: Tree, s': Tree, e1: Fact, e2: Fact, F: set<Fact>, G: set<Fact>, E: set<Fact>, W: set<Node>)
    requires s.Br? && s'.Br? && s'.node == s.node && s'.data == s.data && Distinct(Plug(c, s'))
    requires e1 == Fact(s.node, s.data, RootOf(s'.left), RootOf(s'.right), Above(c, null))
    requires (s'.left == Br(e2.node, e2.data, Nil, Nil) && s'.right == s.right) || (s'.right == Br(e2.node, e2.data, Nil, Nil) && s'.left == s.left)
    requires e2 == Fact(e2.node, e2.data, null, null, s.node)
    requires F == Facts(Plug(c, s), null) && G == Facts(Plug(c, s'), null) && E == {e1, e2} && W == {e1.node, e2.node}
    ensures Covers(F, G, E, W)
  {
    var leaf := Br(e2.node, e2.data, Nil, Nil);
    var A := Above(c, null);
    assert RootFacts(s', A) <= E && e1 in RootFacts(s', A);
    assert Facts(leaf, s.node) <= E && e2 in Facts(leaf, s.node);
    PlugFactsSameRoot(c, s, s', null);
    LeafFactsOnly(c, s', e1, e2, E, W);
  }

  /** The facts of the two written nodes are the only facts about them in the new tree. */
  lemma LeafFactsOnly(c: Ctx, s': Tree, e1: Fact, e2: Fact, E: set<Fact>, W: set<Node>)
    requires s'.Br? && Distinct(Plug(c, s')) && E == {e1, e2} && W == {e1.node, e2.node}
    requires e1 in Facts(Plug(c, s'), null) && e2 in Facts(Plug(c, s'), null)
    ensures forall f | f in Facts(Plug(c, s'), null) && f.node in W :: f in E
  {
    forall f | f in Facts(Plug(c, s'), null) && f.node in W
      ensures f in E
    {
      if f.node == e1.node {
        FactOf(Plug(c, s'), null, f, e1);
      } else {
        FactOf(Plug(c, s'), null, f, e2);
      }
    }
  }

  /** The parent side of deleteNode: `P`, the node above `d`, drops `d` and adopts `pNext`,
      `d`'s only subtree (P->addLeft(pNext) or P->addRight(pNext)). */
  method Rehang(P: Node, d: Node, pNext: Node?, ghost c: Ctx, ghost s: Tree, ghost R: set<Node>)
    requires Distinct(Plug(c, s)) && Holds(Facts(Plug(c, s), null), R) && Nodes(Plug(c, s)) == R
    requires s.Br? && s.node == d && (s.left.Nil? || s.right.Nil?) && pNext == RootOf(RemoveRoot(s))
    requires !c.Top? && P == c.node
    modifies P, pNext
    ensures Holds(Facts(Plug(c, RemoveRoot(s)), null), R)
  {
    RehangBefore(P, d, pNext, c, s, R);
    if P.left == d {
      P.left := null;
      P.AddLeft(pNext);
    } else {
      P.right := null;
      P.AddRight(pNext);
    }
    RehangAfter(P, pNext, c, s, R);
  }

  /** Before deleteNode rewrites the links: `P` holds `d` on the side the path says, `pNext`
      is another node, and the facts about all other nodes hold. */
  lemma RehangBefore(P: Node, d: Node, pNext: Node?, c: Ctx, s: Tree, R: set<Node>)
    requires Distinct(Plug(c, s)) && Holds(Facts(Plug(c, s), null), R) && Nodes(Plug(c, s)) == R
    requires s.Br? && s.node == d && (s.left.Nil? || s.right.Nil?) && pNext == RootOf(RemoveRoot(s))
    requires !c.Top? && P == c.node
    ensures (P.left == d <==> c.InL?) && pNext != P
    ensures P.data == c.data && P.parent == Above(c.up, null)
    ensures c.InL? ==> P.right == RootOf(c.right)
    ensures c.InR? ==> P.left == RootOf(c.left)
    ensures RemoveRoot(s).Br? ==> pNext.data == RemoveRoot(s).data && pNext.left == RootOf(RemoveRoot(s).left) && pNext.right == RootOf(RemoveRoot(s).right)
    ensures HoldsOutside(Facts(Plug(c, s), null), R, InnerNodes(c) + RootNodes(RemoveRoot(s)))
  {
    var h := RemoveRoot(s);
    var F := Facts(Plug(c, s), null);
    LinksAt(c, s, null, R);
    PlugDistinct(c, s);
    PlugFacts(c, s, null);
    RootFact(s, Above(c, null));
    assert d in Nodes(s);
    HoldsOutsideOf(F, R, InnerNodes(c) + RootNodes(h));
    if h.Br? {
      RootLinks(h, d, F, R);
    }
  }

  /** After deleteNode has rewritten the links of `P` and `pNext`, the facts of the tree
      without `d` hold. */
  lemma RehangAfter(P: Node, pNext: Node?, c: Ctx, s: Tree, R: set<Node>)
    requires Distinct(Plug(c, s)) && Nodes(Plug(c, s)) == R && s.Br? && (s.left.Nil? || s.right.Nil?) && pNext == RootOf(RemoveRoot(s))
    requires !c.Top? && P == c.node
    requires HoldsOutside(Facts(Plug(c, s), null), R, InnerNodes(c) + RootNodes(RemoveRoot(s)))
    requires P.data == c.data && P.parent == Above(c.up, null)
    requires c.InL? ==> P.left == pNext && P.right == RootOf(c.right)
    requires c.InR? ==> P.right == pNext && P.left == RootOf(c.left)
    requires RemoveRoot(s).Br? ==> pNext.data == RemoveRoot(s).data && pNext.left == RootOf(RemoveRoot(s).left) && pNext.right == RootOf(RemoveRoot(s).right) && pNext.parent == P
    ensures Holds(Facts(Plug(c, RemoveRoot(s)), null), R)
  {
    var h := RemoveRoot(s);
    var F := Facts(Plug(c, s), null);
    var W := InnerNodes(c) + RootNodes(h);
    var G, E := Facts(Plug(c, h), null), InnerFacts(c, pNext, null) + RootFacts(h, P);
    SpliceDistinct(c, s);
    SpliceFacts(c, s, h);
    assert Holds(InnerFacts(c, pNext, null), InnerNodes(c));
    assert Holds(RootFacts(h, P), RootNodes(h));
    HoldsJoin(InnerFacts(c, pNext, null), InnerNodes(c), RootFacts(h, P), RootNodes(h));
    Reestablish(F, R, W, G, E, W);
    assert R + W == R by {
      PlugDistinct(c, s);
      PlugNodes(c, s);
    }
  }

  /** The root side of deleteNode: `pNext`, the only subtree of the root, loses its parent
      link and becomes the tree; when the root is a leaf there is no subtree and the tree
      becomes empty. */
  method Detach(pNext: Node?, ghost c: Ctx, ghost s: Tree, ghost R: set<Node>)
    requires Distinct(Plug(c, s)) && Holds(Facts(Plug(c, s), null), R) && Nodes(Plug(c, s)) == R
    requires s.Br? && (s.left.Nil? || s.right.Nil?) && pNext == RootOf(RemoveRoot(s))
    requires c.Top?
    modifies pNext
    ensures Holds(Facts(Plug(c, RemoveRoot(s)), null), R)
  {
    DetachBefore(pNext, c, s, R);
    if pNext != null {
      pNext.parent := null;
    }
    DetachAfter(pNext, c, s, R);
  }

  /** Before the root's only subtree is detached: its root's fields, and the facts about all
      other nodes. */
  lemma DetachBefore(pNext: Node?, c: Ctx, s: Tree, R: set<Node>)
    requires Distinct(Plug(c, s)) && Holds(Facts(Plug(c, s), null), R)
    requires s.Br? && (s.left.Nil? || s.right.Nil?) && pNext == RootOf(RemoveRoot(s))
    requires c.Top?
    ensures RemoveRoot(s).Br? ==> pNext.data == RemoveRoot(s).data && pNext.left == RootOf(RemoveRoot(s).left) && pNext.right == RootOf(RemoveRoot(s).right)
    ensures HoldsOutside(Facts(Plug(c, s), null), R, InnerNodes(c) + RootNodes(RemoveRoot(s)))
  {
    var h := RemoveRoot(s);
    var F := Facts(Plug(c, s), null);
    RootFact(s, null);
    HoldsOutsideOf(F, R, InnerNodes(c) + RootNodes(h));
    if h.Br? {
      RootLinks(h, s.node, F, R);
    }
  }

  /** After the root's only subtree is detached, the facts of that subtree as the whole tree hold. */
  lemma DetachAfter(pNext: Node?, c: Ctx, s: Tree, R: set<Node>)
    requires Distinct(Plug(c, s)) && Nodes(Plug(c, s)) == R
    requires s.Br? && (s.left.Nil? || s.right.Nil?) && pNext == RootOf(RemoveRoot(s))
    requires c.Top?
    requires HoldsOutside(Facts(Plug(c, s), null), R, InnerNodes(c) + RootNodes(RemoveRoot(s)))
    requires RemoveRoot(s).Br? ==> pNext.data == RemoveRoot(s).data && pNext.left == RootOf(RemoveRoot(s).left) && pNext.right == RootOf(RemoveRoot(s).right) && pNext.parent == null
    ensures Holds(Facts(Plug(c, RemoveRoot(s)), null), R)
  {
    var h := RemoveRoot(s);
    var F := Facts(Plug(c, s), null);
    var W := InnerNodes(c) + RootNodes(h);
    var G, E := Facts(Plug(c, h), null), InnerFacts(c, pNext, null) + RootFacts(h, null);
    SpliceDistinct(c, s);
    SpliceFacts(c, s, h);
    assert Holds(E, W);
    Reestablish(F, R, W, G, E, W);
    assert R + W == R by {
      PlugNodes(c, s);
    }
  }

  /** What splicing out the root of the hole does to the tree as a value: the node leaves, the
      search-tree order and distinctness stay, and the root of the whole changes only when
      the hole is the whole tree. */
  lemma SpliceShape(c: Ctx, s: Tree, root: Node?, R: set<Node>)
    requires s.Br? && Distinct(Plug(c, s)) && Ordered(Plug(c, s)) && Nodes(Plug(c, s)) == R && root == RootOf(Plug(c, s))
    ensures s.node in R && (s.node == root <==> c.Top?) && (!c.Top? ==> c.node in R)
    ensures RemoveRoot(s).Br? ==> RemoveRoot(s).node in R
    ensures Distinct(Plug(c, RemoveRoot(s))) && Ordered(Plug(c, RemoveRoot(s)))
    ensures Nodes(Plug(c, RemoveRoot(s))) == R - {s.node}
    ensures forall f | f in Facts(Plug(c, RemoveRoot(s)), null) :: f.node in R - {s.node}
    ensures RootOf(Plug(c, RemoveRoot(s))) == if c.Top? then RootOf(RemoveRoot(s)) else root
  {
    PlugDistinct(c, s);
    PlugNodes(c, s);
    RemoveRootParts(s);
    assert s.node in Nodes(s);
    if !c.Top? {
      PlugRoot(c, s);
      PlugRoot(c, RemoveRoot(s));
      assert c.node in CtxNodes(c);
    }
    SpliceNodes(c, s);
    SpliceDistinct(c, s);
    SpliceOrdered(c, s);
    FactsAbout(Plug(c, RemoveRoot(s)), null);
  }

  /** erase with two subtrees below `d`: find the in-order successor down the right subtree,
      let it adopt `d`'s left subtree, unhook it from its parent (which adopts its right
      subtree) and let it adopt `d`'s right subtree unless that is where it came from, then
      hang it where `d` was. */
  method SpliceSuccessor(d: Node, ghost c: Ctx, ghost s: Tree, ghost R: set<Node>) returns (S: Node)
    requires Distinct(Plug(c, s)) && Holds(Facts(Plug(c, s), null), R) && Nodes(Plug(c, s)) == R
    requires s.Br? && s.node == d && s.left.Br? && s.right.Br?
    modifies R
    ensures S == Min(s.right).node
    ensures Holds(Facts(Plug(c, RemoveRoot(s)), null), R)
  {
    ghost var F := Facts(Plug(c, s), null);
    LinksAt(c, s, null, R);
    PlugFacts(c, s, null);
    RootFact(s, Above(c, null));
    ghost var c2, s2;
    S, c2, s2 := Leftmost(d.right, s.right, d, F, R);
    SuccessorLinks(c, s, c2, s2, R);
    SceneShaped(c, s, c2, s2);
    SceneFramed(c, s, c2, s2, R);
    Rewire(d, S, SceneOf(c, s, c2, s2), NodesOf(NewFacts(c, s, c2, s2)));
    DoneHolds(SceneOf(c, s, c2, s2));
    SceneFacts(c, s, c2, s2);
    SuccessorAfter(c, s, c2, s2, R);
  }

  /** The link rewrites of erase's third case, on the nodes of the scene `z`. */
  method Rewire(d: Node, S: Node, ghost z: Scene, ghost W: set<Node>)
    requires z.d.node == d && z.S.node == S && Linked(z) && Shaped(z) && Framed(z, W)
    modifies W
    ensures Done(z)
  {
    S.left := d.left;
    if d.left != null {
      d.left.parent := S;
    }
    if d.right != S {
      if S.right != null {
        S.right.parent := S.parent;
      }
      S.parent.left := S.right;
      S.right := d.right;
      d.right.parent := S;
    }
    S.parent := d.parent;
    if d.parent != null && d.parent.left == d {
      d.parent.left := S;
    }
    if d.parent != null && d.parent.right == d {
      d.parent.right := S;
    }
  }
}
