/** What find, insert and erase do to a tree, stated on `Tree` values, and the properties of
    those operations: search, placement of a new node, splicing out a node. */
module Updates {
  import opened TreeNode
  import opened Shapes
  import opened Paths

  /** The descent of find (and of insert with keepUnique): the first node holding `x` on the
      path that goes left when `x < data` and right otherwise; null when it falls off. */
  function Lookup(t: Tree, x: int): Node? {
    match t
    case Nil => null
    case Br(n, d, l, r) => if d == x then n else if x < d then Lookup(l, x) else Lookup(r, x)
  }

  /** `c` lies on the search path of `x`. */
  predicate OnPath(c: Ctx, x: int) {
    match c
    case Top => true
    case InL(_, d, _, up) => x < d && OnPath(up, x)
    case InR(_, d, _, up) => d <= x && OnPath(up, x)
  }

  /** No node of the path `c` holds `x`. */
  predicate Missed(c: Ctx, x: int) {
    match c
    case Top => true
    case InL(_, d, _, up) => d != x && Missed(up, x)
    case InR(_, d, _, up) => d != x && Missed(up, x)
  }

  /** insert's placement of the new node `k` holding `x`: it hangs from the null link where
      the search path of `x` ends, on the left when `x < data` and on the right otherwise. */
  function Ins(t: Tree, x: int, k: Node): Tree {
    match t
    case Nil => Br(k, x, Nil, Nil)
    case Br(n, d, l, r) => if x < d then Br(n, d, Ins(l, x, k), r) else Br(n, d, l, Ins(r, x, k))
  }

  /** The leftmost branch of a non-empty tree. */
  function Min(t: Tree): (m: Tree)
    requires t.Br?
    ensures m.Br? && m.left.Nil?
  {
    if t.left.Nil? then t else Min(t.left)
  }

  /** The tree without its leftmost node, whose right subtree takes its place. */
  function RemoveMin(t: Tree): Tree
    requires t.Br?
  {
    if t.left.Nil? then t.right else Br(t.node, t.data, RemoveMin(t.left), t.right)
  }

  /** erase's three splice cases at the root of `s`: no left child, the right subtree takes
      its place; no right child, the left subtree does; otherwise the in-order successor
      (leftmost node of the right subtree) takes its place and adopts both subtrees. */
  function RemoveRoot(s: Tree): Tree
    requires s.Br?
  {
    if s.left.Nil? then s.right
    else if s.right.Nil? then s.left
    else
      var m := Min(s.right);
      Br(m.node, m.data, s.left, RemoveMin(s.right))
  }

  /** `t` with node `n` spliced out by erase. */
  function Remove(t: Tree, n: Node): Tree
    requires n in Nodes(t)
  {
    var cs := Locate(t, n);
    Plug(cs.0, RemoveRoot(cs.1))
  }

  /** Every step of `c` goes left. */
  predicate LeftPath(c: Ctx) {
    match c
    case Top => true
    case InL(_, _, _, up) => LeftPath(up)
    case InR(_, _, _, _) => false
  }

  // ---------------------------------------------------------------------------
  // find

  /** In a search tree, the descent falls off exactly when `x` is absent; otherwise it
      ends at a node of the tree. */
  lemma {:induction false} LookupAbsent(t: Tree, x: int)
    requires Ordered(t)
    ensures Lookup(t, x) == null <==> x !in Values(t)
    ensures Lookup(t, x) != null ==> Lookup(t, x) in Nodes(t)
  {
    match t
    case Nil =>
    case Br(n, d, l, r) =>
      LookupAbsent(l, x);
      LookupAbsent(r, x);
  }

  /** The node the descent finds holds `x`: it sits at an in-order position holding `x`. */
  lemma {:induction false} LookupHolds(t: Tree, x: int)
    requires Distinct(t)
    ensures Lookup(t, x) != null ==> Lookup(t, x) in Nodes(t) && Keys(t)[Index(t, Lookup(t, x))] == x
  {
    match t
    case Nil =>
    case Br(n, d, l, r) =>
      OrderShape(l);
      LookupHolds(l, x);
      LookupHolds(r, x);
      var m := Lookup(t, x);
      if m != null {
        if d == x {
          assert Keys(t)[|Keys(l)|] == d;
        } else if x < d {
          assert Keys(t)[Index(l, m)] == Keys(l)[Index(l, m)];
        } else {
          assert m !in Nodes(l) && m != n;
          assert Keys(t)[|Keys(l)| + 1 + Index(r, m)] == Keys(r)[Index(r, m)];
        }
      }
  }

  /** Once the descent has followed `c` without meeting `x`, the rest of it runs in the hole. */
  lemma {:induction false} LookupPlug(c: Ctx, s: Tree, x: int)
    requires OnPath(c, x) && Missed(c, x)
    ensures Lookup(Plug(c, s), x) == Lookup(s, x)
  {
    match c
    case Top =>
    case InL(n, d, r, up) =>
      LookupPlug(up, Br(n, d, s, r), x);
    case InR(n, d, l, up) =>
      LookupPlug(up, Br(n, d, l, s), x);
  }

  // ---------------------------------------------------------------------------
  // insert

  /** Once insert's descent has followed `c`, the new node is placed in the hole. */
  lemma {:induction false} InsPlug(c: Ctx, s: Tree, x: int, k: Node)
    requires OnPath(c, x)
    ensures Ins(Plug(c, s), x, k) == Plug(c, Ins(s, x, k))
  {
    match c
    case Top =>
    case InL(n, d, r, up) =>
      InsPlug(up, Br(n, d, s, r), x, k);
    case InR(n, d, l, up) =>
      InsPlug(up, Br(n, d, l, s), x, k);
  }

  /** Insertion adds exactly the new node, and keeps the root of a non-empty tree. */
  lemma {:induction false} InsNodes(t: Tree, x: int, k: Node)
    ensures Nodes(Ins(t, x, k)) == Nodes(t) + {k}
    ensures t.Br? ==> RootOf(Ins(t, x, k)) == RootOf(t)
  {
    match t
    case Nil =>
    case Br(n, d, l, r) =>
      if x < d {
        InsNodes(l, x, k);
      } else {
        InsNodes(r, x, k);
      }
  }

  /** Insertion adds exactly one element. */
  lemma {:induction false} InsValues(t: Tree, x: int, k: Node)
    ensures Values(Ins(t, x, k)) == Values(t) + {x}
    ensures Count(Ins(t, x, k)) == Count(t) + 1
  {
    match t
    case Nil =>
    case Br(n, d, l, r) =>
      if x < d {
        InsValues(l, x, k);
      } else {
        InsValues(r, x, k);
      }
  }

  /** The in-order elements after insertion are the old ones and one more `x`. */
  lemma {:induction false} InsKeys(t: Tree, x: int, k: Node)
    ensures multiset(Keys(Ins(t, x, k))) == multiset(Keys(t)) + multiset{x}
  {
    match t
    case Nil =>
    case Br(n, d, l, r) =>
      if x < d {
        InsKeys(l, x, k);
        GrowLeft(Keys(Ins(l, x, k)), Keys(l), d, Keys(r), x);
      } else {
        InsKeys(r, x, k);
        GrowRight(Keys(l), d, Keys(Ins(r, x, k)), Keys(r), x);
      }
  }

  /** One more `x` on the left of a join is one more `x` in the join. */
  lemma GrowLeft(a': seq<int>, a: seq<int>, d: int, b: seq<int>, x: int)
    requires multiset(a') == multiset(a) + multiset{x}
    ensures multiset(a' + [d] + b) == multiset(a + [d] + b) + multiset{x}
  {
  }

  /** One more `x` on the right of a join is one more `x` in the join. */
  lemma GrowRight(a: seq<int>, d: int, b': seq<int>, b: seq<int>, x: int)
    requires multiset(b') == multiset(b) + multiset{x}
    ensures multiset(a + [d] + b') == multiset(a + [d] + b) + multiset{x}
  {
  }

  /** Insertion keeps search-tree order. */
  lemma {:induction false} InsOrdered(t: Tree, x: int, k: Node)
    requires Ordered(t)
    ensures Ordered(Ins(t, x, k))
  {
    match t
    case Nil =>
    case Br(n, d, l, r) =>
      if x < d {
        InsValues(l, x, k);
        InsOrdered(l, x, k);
      } else {
        InsValues(r, x, k);
        InsOrdered(r, x, k);
      }
  }

  /** Inserting a node not yet in the tree keeps the nodes distinct. */
  lemma {:induction false} InsDistinct(t: Tree, x: int, k: Node)
    requires Distinct(t) && k !in Nodes(t)
    ensures Distinct(Ins(t, x, k))
  {
    match t
    case Nil =>
    case Br(n, d, l, r) =>
      if x < d {
        InsNodes(l, x, k);
        InsDistinct(l, x, k);
      } else {
        InsNodes(r, x, k);
        InsDistinct(r, x, k);
      }
  }

  // ---------------------------------------------------------------------------
  // erase

  /** The leftmost node comes first in in-order; removing it leaves the rest in order. */
  lemma {:induction false} MinParts(t: Tree)
    requires t.Br?
    ensures Order(t) == [Min(t).node] + Order(RemoveMin(t))
    ensures Keys(t) == [Min(t).data] + Keys(RemoveMin(t))
    ensures Nodes(t) == {Min(t).node} + Nodes(RemoveMin(t))
    ensures Values(t) == {Min(t).data} + Values(RemoveMin(t))
    ensures Distinct(t) ==> Distinct(RemoveMin(t)) && Min(t).node !in Nodes(RemoveMin(t))
    ensures Ordered(t) ==> Ordered(RemoveMin(t)) && forall x | x in Values(t) :: Min(t).data <= x
  {
    if t.left.Br? {
      MinParts(t.left);
      var l' := RemoveMin(t.left);
      Front(Min(t).node, Order(l'), t.node, Order(t.right));
      Front(Min(t).data, Keys(l'), t.data, Keys(t.right));
    }
  }

  /** Regrouping a sequence whose first entry is split off. */
  lemma Front<X>(x: X, a: seq<X>, y: X, b: seq<X>)
    ensures ([x] + a) + [y] + b == [x] + (a + [y] + b)
  {
  }

  /** Going down a left path does not change which node is leftmost. */
  lemma {:induction false} MinPlug(c: Ctx, s: Tree)
    requires LeftPath(c) && s.Br?
    ensures Min(Plug(c, s)) == Min(s)
    ensures RemoveMin(Plug(c, s)) == Plug(c, RemoveMin(s))
  {
    match c
    case Top =>
    case InL(n, d, r, up) =>
      MinPlug(up, Br(n, d, s, r));
  }

  /** Splicing out a root removes exactly it from the in-order sequence; the result is a
      search tree without repeated nodes again. */
  lemma RemoveRootParts(s: Tree)
    requires s.Br?
    ensures Order(RemoveRoot(s)) == Order(s.left) + Order(s.right)
    ensures Keys(RemoveRoot(s)) == Keys(s.left) + Keys(s.right)
    ensures Nodes(RemoveRoot(s)) == Nodes(s.left) + Nodes(s.right)
    ensures Values(RemoveRoot(s)) <= Values(s)
    ensures Distinct(s) ==> Distinct(RemoveRoot(s))
    ensures Ordered(s) ==> Ordered(RemoveRoot(s))
  {
    if s.left.Br? && s.right.Br? {
      SuccessorMovesUp(s);
    }
  }

  /** The two-children case of `RemoveRoot`: the successor `m` moves up between the subtrees. */
  lemma SuccessorMovesUp(s: Tree)
    requires s.Br? && s.left.Br? && s.right.Br?
    ensures Order(RemoveRoot(s)) == Order(s.left) + Order(s.right)
    ensures Keys(RemoveRoot(s)) == Keys(s.left) + Keys(s.right)
    ensures Nodes(RemoveRoot(s)) == Nodes(s.left) + Nodes(s.right)
    ensures Values(RemoveRoot(s)) <= Values(s)
    ensures Distinct(s) ==> Distinct(RemoveRoot(s))
    ensures Ordered(s) ==> Ordered(RemoveRoot(s))
  {
    var m, rest := Min(s.right), RemoveMin(s.right);
    MinParts(s.right);
    assert RemoveRoot(s) == Br(m.node, m.data, s.left, rest);
    Shift(Order(s.left), m.node, Order(rest));
    Shift(Keys(s.left), m.data, Keys(rest));
    if Ordered(s) {
      assert m.data in Values(s.right);
      assert forall x | x in Values(s.left) :: x < m.data;
    }
  }

  /** Moving an entry across a join. */
  lemma Shift<X>(a: seq<X>, x: X, b: seq<X>)
    ensures a + [x] + b == a + ([x] + b)
  {
  }

  /** Cutting one element out of a sequence. */
  lemma Cut<X>(a: seq<X>, x: X, b: seq<X>)
    ensures (a + [x] + b)[..|a|] == a && (a + [x] + b)[|a| + 1..] == b
  {
    assert (a + [x] + b)[..|a|] == a;
    assert (a + [x] + b)[|a| + 1..] == b;
  }

  /** Splicing out the root of the hole's part takes exactly that node out of the in-order
      sequence. */
  lemma SpliceOrder(c: Ctx, s: Tree)
    requires s.Br?
    ensures Order(Plug(c, RemoveRoot(s))) == (Before(c) + Order(s.left)) + (Order(s.right) + After(c))
  {
    var s' := RemoveRoot(s);
    PlugOrder(c, s');
    RemoveRootParts(s);
    RegroupPair(Before(c), Order(s.left), Order(s.right), After(c));
  }

  /** The hole's root sits in in-order after the context's earlier nodes and its left subtree. */
  lemma IndexPlug(c: Ctx, s: Tree)
    requires s.Br? && Distinct(Plug(c, s))
    ensures s.node in Nodes(Plug(c, s)) && Index(Plug(c, s), s.node) == |Before(c)| + |Order(s.left)|
  {
    PlugOrderAt(c, s);
    var a := Before(c) + Order(s.left);
    assert Order(Plug(c, s))[|a|] == s.node;
    IndexAt(Plug(c, s), |a|);
  }

  /** The in-order elements around the hole's root. */
  lemma PlugKeysAt(c: Ctx, s: Tree)
    requires s.Br?
    ensures Keys(Plug(c, s)) == (BeforeKeys(c) + Keys(s.left)) + [s.data] + (Keys(s.right) + AfterKeys(c))
  {
    PlugKeys(c, s);
    Regroup(BeforeKeys(c), Keys(s.left), s.data, Keys(s.right), AfterKeys(c));
  }

  lemma LengthsAt(c: Ctx, s: Tree)
    requires s.Br?
    ensures |BeforeKeys(c) + Keys(s.left)| == |Before(c)| + |Order(s.left)|
  {
    PlugKeys(c, s);
    OrderShape(s.left);
  }

  /** Splicing out the root of the hole's part takes exactly its element out of the in-order
      elements. */
  lemma SpliceKeys(c: Ctx, s: Tree)
    requires s.Br?
    ensures Keys(Plug(c, RemoveRoot(s))) == (BeforeKeys(c) + Keys(s.left)) + (Keys(s.right) + AfterKeys(c))
  {
    var s' := RemoveRoot(s);
    PlugKeys(c, s');
    RemoveRootParts(s);
    RegroupPair(BeforeKeys(c), Keys(s.left), Keys(s.right), AfterKeys(c));
  }

  /** erase of node `n` takes exactly `n` out of the in-order sequence of nodes. */
  lemma RemoveOrder(t: Tree, n: Node)
    requires Distinct(t) && n in Nodes(t)
    ensures Order(Remove(t, n)) == Order(t)[..Index(t, n)] + Order(t)[Index(t, n) + 1..]
  {
    var cs := Locate(t, n);
    var c, s := cs.0, cs.1;
    PlugOrderAt(c, s);
    SpliceOrder(c, s);
    IndexPlug(c, s);
    Cut(Before(c) + Order(s.left), n, Order(s.right) + After(c));
  }

  /** erase of node `n` takes exactly its element out of the in-order elements. */
  lemma RemoveKeys(t: Tree, n: Node)
    requires Distinct(t) && n in Nodes(t)
    ensures Keys(Remove(t, n)) == Keys(t)[..Index(t, n)] + Keys(t)[Index(t, n) + 1..]
  {
    var cs := Locate(t, n);
    var c, s := cs.0, cs.1;
    PlugKeysAt(c, s);
    SpliceKeys(c, s);
    IndexPlug(c, s);
    LengthsAt(c, s);
    Cut(BeforeKeys(c) + Keys(s.left), s.data, Keys(s.right) + AfterKeys(c));
  }

  /** After erase of node `n`, its old successor (if any) sits at the position `n` had. */
  lemma RemoveSucc(t: Tree, n: Node)
    requires Distinct(t) && n in Nodes(t)
    ensures Succ(t, n) != null ==> Index(t, n) < |Order(Remove(t, n))| && Order(Remove(t, n))[Index(t, n)] == Succ(t, n)
  {
    RemoveOrder(t, n);
    var i := Index(t, n);
    if i + 1 < |Order(t)| {
      assert Order(Remove(t, n))[i] == Order(t)[i + 1];
    }
  }

  /** Splicing out the root of the hole's part removes exactly that node. */
  lemma SpliceNodes(c: Ctx, s: Tree)
    requires s.Br? && Distinct(Plug(c, s))
    ensures Nodes(Plug(c, RemoveRoot(s))) == Nodes(Plug(c, s)) - {s.node}
  {
    PlugNodes(c, s);
    PlugNodes(c, RemoveRoot(s));
    PlugDistinct(c, s);
    RemoveRootParts(s);
  }

  lemma SpliceDistinct(c: Ctx, s: Tree)
    requires s.Br? && Distinct(Plug(c, s))
    ensures Distinct(Plug(c, RemoveRoot(s)))
  {
    PlugDistinct(c, s);
    PlugNodes(c, s);
    RemoveRootParts(s);
    PlugReplace(c, s, RemoveRoot(s));
  }

  lemma SpliceOrdered(c: Ctx, s: Tree)
    requires s.Br? && Ordered(Plug(c, s))
    ensures Ordered(Plug(c, RemoveRoot(s)))
  {
    PlugOrderedPart(c, s);
    RemoveRootParts(s);
    PlugOrdered(c, s, RemoveRoot(s));
  }

  /** erase of node `n` leaves exactly the other nodes, without repeats, and a search tree
      when it was one. */
  lemma RemoveNodes(t: Tree, n: Node)
    requires Distinct(t) && n in Nodes(t)
    ensures Nodes(Remove(t, n)) == Nodes(t) - {n}
    ensures Count(Remove(t, n)) == Count(t) - 1
    ensures Distinct(Remove(t, n))
    ensures Ordered(t) ==> Ordered(Remove(t, n))
  {
    var cs := Locate(t, n);
    SpliceNodes(cs.0, cs.1);
    SpliceDistinct(cs.0, cs.1);
    if Ordered(t) {
      SpliceOrdered(cs.0, cs.1);
    }
    DistinctCount(t);
    DistinctCount(Remove(t, n));
  }
}
