/** Models of the places where bst.h, as written, does not do what the rest of the code
    evidently intends, with the input that shows each. The rest of the model follows the
    intended behaviour; the lemmas here relate each as-written step to it. */
module Findings {
  import opened TreeNode
  import opened Shapes
  import opened Paths
  import opened Updates

  /** The end of a step that follows links: its result, or a read through a null link. */
  datatype Outcome<X> = Done(value: X) | NullDeref

  /** addRight(const T&) as written: the new node holding `t` is hung with addLeft, in place
      of the left subtree, and the right link is left as it was. */
  method AddRightAsWritten(n: Node, t: int)
    modifies n
    ensures n.left != null && fresh(n.left) && n.left.data == t && n.left.parent == n
    ensures n.right == old(n.right) && n.data == old(n.data) && n.parent == old(n.parent)
  {
    var m := new Node(t);
    n.AddLeft(m);
  }

  /** addLeft(T&&) as written: the new node holding `t` is hung with addRight, in place of the
      right subtree, and the left link is left as it was. */
  method AddLeftMovedAsWritten(n: Node, t: int)
    modifies n
    ensures n.right != null && fresh(n.right) && n.right.data == t && n.right.parent == n
    ensures n.left == old(n.left) && n.data == old(n.data) && n.parent == old(n.parent)
  {
    var m := new Node(t);
    n.AddRight(m);
  }

  /** insert(x) as written (keepUnique false). The search is that of Ins. At the null link
      where it ends, a smaller `x` is hung with addLeft(const T&), which is right; a larger or
      equal `x` is hung with addRight(const T&), which hangs it on the left, in place of the
      left subtree. Both insert overloads take these const-reference forms. */
  function InsAsWritten(t: Tree, x: int, k: Node): (r: Tree)
    ensures r.Br? && (t.Br? ==> r.node == t.node && r.data == t.data)
    ensures Count(r) <= Count(t) + 1
    ensures x in Values(r) && Values(r) <= Values(t) + {x}
    ensures !EndsRight(t, x) ==> Values(r) == Values(t) + {x}
  {
    match t
    case Nil => Br(k, x, Nil, Nil)
    case Br(n, d, l, rt) =>
      if x < d && l.Br? then Br(n, d, InsAsWritten(l, x, k), rt)
      else if d <= x && rt.Br? then Br(n, d, l, InsAsWritten(rt, x, k))
      else Br(n, d, Br(k, x, Nil, Nil), rt)
  }

  /** The iterator insert as written returns: the new node when it was hung as a left child
      or as the root, and end() when the search ended at a right link, since addRight as
      written leaves that link null. */
  function InsIteratorAsWritten(t: Tree, x: int, k: Node): (it: Node?)
    ensures it == null <==> EndsRight(t, x)
    ensures it != null ==> it == k
  {
    match t
    case Nil => k
    case Br(_, d, l, r) =>
      if x < d then (if l.Br? then InsIteratorAsWritten(l, x, k) else k)
      else if r.Br? then InsIteratorAsWritten(r, x, k)
      else null
  }

  /** Inserting 1 and then 2 hangs 2 to the left of 1: the tree is out of order, where the
      intended insertion keeps it in order. */
  lemma InsMisplaces(a: Node, b: Node)
    ensures InsAsWritten(InsAsWritten(Nil, 1, a), 2, b) == Br(a, 1, Br(b, 2, Nil, Nil), Nil)
    ensures !Ordered(InsAsWritten(InsAsWritten(Nil, 1, a), 2, b))
    ensures Ordered(Ins(Ins(Nil, 1, a), 2, b)) && Keys(Ins(Ins(Nil, 1, a), 2, b)) == [1, 2]
  {
    assert 2 in Values(Br(b, 2, Nil, Nil));
  }

  /** With 0 to the left of 1, inserting 2 replaces 0: an element is lost. */
  lemma InsLoses(a: Node, m: Node, b: Node)
    ensures Values(InsAsWritten(Br(a, 1, Br(m, 0, Nil, Nil), Nil), 2, b)) == {1, 2}
    ensures Values(Ins(Br(a, 1, Br(m, 0, Nil, Nil), Nil), 2, b)) == {0, 1, 2}
  {
  }

  /** operator=({1, 0, 2}) as written inserts 1, 0 and 2 in turn: the tree ends with two
      nodes, holding 1 and 2, while three elements were counted; the intended insertions keep
      all three. */
  lemma ListLosesAsWritten(a: Node, b: Node, c: Node)
    ensures Values(InsAsWritten(InsAsWritten(InsAsWritten(Nil, 1, a), 0, b), 2, c)) == {1, 2}
    ensures Count(InsAsWritten(InsAsWritten(InsAsWritten(Nil, 1, a), 0, b), 2, c)) == 2
    ensures Values(Ins(Ins(Ins(Nil, 1, a), 0, b), 2, c)) == {0, 1, 2}
    ensures Count(Ins(Ins(Ins(Nil, 1, a), 0, b), 2, c)) == 3
  {
    assert InsAsWritten(InsAsWritten(InsAsWritten(Nil, 1, a), 0, b), 2, c) == Br(a, 1, Br(c, 2, Nil, Nil), Nil);
  }

  /** The search for `x` in `t` ends at the null right link of a node. */
  predicate EndsRight(t: Tree, x: int) {
    match t
    case Nil => false
    case Br(_, d, l, r) => if x < d then EndsRight(l, x) else r.Nil? || EndsRight(r, x)
  }

  /** Insertion as written agrees with the intended one exactly when the search ends at a
      left link or in the empty tree. */
  lemma {:induction false} InsAsWrittenAgrees(t: Tree, x: int, k: Node)
    ensures InsAsWritten(t, x, k) == Ins(t, x, k) <==> !EndsRight(t, x)
  {
    match t
    case Nil =>
    case Br(n, d, l, r) =>
      if x < d {
        InsAsWrittenAgrees(l, x, k);
      } else if r.Br? {
        InsAsWrittenAgrees(r, x, k);
      }
  }

  /** Walking up from the hole of `c` while it lies in right subtrees: the first ancestor whose
      left subtree holds it, or end() when there is none. */
  function UpFromRight(c: Ctx): Node? {
    match c
    case Top => null
    case InL(n, _, _, _) => n
    case InR(_, _, _, up) => UpFromRight(up)
  }

  /** Walking up from the hole of `c` while it lies in left subtrees. */
  function UpFromLeft(c: Ctx): Node? {
    match c
    case Top => null
    case InR(n, _, _, _) => n
    case InL(_, _, _, up) => UpFromLeft(up)
  }

  /** The climb reaches the in-order successor of a node with no right subtree. */
  lemma {:induction false} UpFromRightSucc(c: Ctx, s: Tree, a: seq<Node>, n: Node)
    requires Distinct(Plug(c, s)) && Order(s) == a + [n]
    ensures UpFromRight(c) == Succ(Plug(c, s), n)
    decreases c
  {
    match c
    case Top => SuccUp(c, s, a, n);
    case InL(_, _, _, _) => SuccUp(c, s, a, n);
    case InR(m, d, l, up) =>
      var s' := Br(m, d, l, s);
      assert Order(s') == (Order(l) + [m] + a) + [n];
      UpFromRightSucc(up, s', Order(l) + [m] + a, n);
  }

  /** The climb reaches the in-order predecessor of a node with no left subtree. */
  lemma {:induction false} UpFromLeftPred(c: Ctx, s: Tree, n: Node, b: seq<Node>)
    requires Distinct(Plug(c, s)) && Order(s) == [n] + b
    ensures UpFromLeft(c) == Pred(Plug(c, s), n)
    decreases c
  {
    match c
    case Top => PredUp(c, s, n, b);
    case InR(_, _, _, _) => PredUp(c, s, n, b);
    case InL(m, d, r, up) =>
      var s' := Br(m, d, s, r);
      assert Order(s') == [n] + (b + [m] + Order(r));
      UpFromLeftPred(up, s', n, b + [m] + Order(r));
  }

  /** The path to `n` is empty exactly when `n` is the root of the subtree searched from the
      top. */
  lemma {:induction false} LocateTop(c: Ctx, s: Tree, n: Node)
    requires n in Nodes(s)
    ensures LocateIn(c, s, n).0.Top? <==> c.Top? && s.node == n
    decreases s
  {
    if s.node != n {
      if n in Nodes(s.left) {
        LocateTop(InL(s.node, s.data, s.right, c), s.left, n);
      } else {
        LocateTop(InR(s.node, s.data, s.left, c), s.right, n);
      }
    }
  }

  /** Prefix ++ as written, at node `n` of `t` (end() stays end()): down to the leftmost node of
      a right subtree; otherwise it reads the parent's left link before it checks that there is
      a parent, and then climbs. Whenever it does not fault it reaches the successor. */
  function IncrementAsWritten(t: Tree, n: Node?): (r: Outcome<Node?>)
    requires Distinct(t) && (n == null || n in Nodes(t))
    ensures r.Done? ==> r.value == Succ(t, n)
    ensures r.NullDeref? <==> n != null && n == t.node && t.right.Nil?
  {
    if n == null then Done(null)
    else
      var cs := Locate(t, n);
      var c, s := cs.0, cs.1;
      LocateTop(Top, t, n);
      if s.right.Br? then
        SuccDown(c, s);
        Done(First(s.right))
      else if c.Top? then NullDeref
      else
        assert Order(s) == Order(s.left) + [n];
        UpFromRightSucc(c, s, Order(s.left), n);
        Done(UpFromRight(c))
  }

  /** Prefix -- as written, the mirror image: it faults at a root with no left subtree. */
  function DecrementAsWritten(t: Tree, n: Node?): (r: Outcome<Node?>)
    requires Distinct(t) && (n == null || n in Nodes(t))
    ensures r.Done? ==> r.value == Pred(t, n)
    ensures r.NullDeref? <==> n != null && n == t.node && t.left.Nil?
  {
    if n == null then Done(null)
    else
      var cs := Locate(t, n);
      var c, s := cs.0, cs.1;
      LocateTop(Top, t, n);
      if s.left.Br? then
        PredDown(c, s);
        Done(Order(s.left)[|Order(s.left)| - 1])
      else if c.Top? then NullDeref
      else
        assert Order(s) == [n] + Order(s.right);
        UpFromLeftPred(c, s, n, Order(s.right));
        Done(UpFromLeft(c))
  }

  /** ++ on a root without a right subtree, the last element, faults where end() is intended. */
  lemma IncrementFaultsAtLast(t: Tree)
    requires t.Br? && t.right.Nil? && Distinct(t)
    ensures IncrementAsWritten(t, t.node) == NullDeref && Succ(t, t.node) == null
  {
    assert Order(t) == Order(t.left) + [t.node];
    SuccUp(Top, t, Order(t.left), t.node);
  }

  /** -- on a root without a left subtree, the first element, faults where end() is intended. */
  lemma DecrementFaultsAtFirst(t: Tree)
    requires t.Br? && t.left.Nil? && Distinct(t)
    ensures DecrementAsWritten(t, t.node) == NullDeref && Pred(t, t.node) == null
  {
    assert Order(t) == [t.node] + Order(t.right);
    PredUp(Top, t, t.node, Order(t.right));
  }

  /** deleteNode(d, toRight) as written, with `d` at the root of `s` in `Plug(c, s)` and without
      the child that `toRight` says is missing: the other subtree takes the place of `d`. When `d`
      is the root it writes the parent link of that subtree's root without checking that there
      is one. Whenever it does not fault it removes `d` as erase intends. */
  function DeleteNodeAsWritten(c: Ctx, s: Tree, toRight: bool): (r: Outcome<Tree>)
    requires s.Br? && (toRight ==> s.left.Nil?) && (!toRight ==> s.right.Nil?)
    ensures r.Done? ==> r.value == Plug(c, RemoveRoot(s))
    ensures r.NullDeref? <==> c.Top? && s.left.Nil? && s.right.Nil?
  {
    var next := if toRight then s.right else s.left;
    if c.Top? && next.Nil? then NullDeref else Done(Plug(c, next))
  }

  /** deleteNode as written, called on a leaf at the root, faults where the empty tree is
      intended. Through erase this input is not reached: erase's `++` faults first. */
  lemma DeleteNodeFaultsAtLoneRoot(a: Node, x: int)
    ensures DeleteNodeAsWritten(Top, Br(a, x, Nil, Nil), true) == NullDeref
    ensures Remove(Br(a, x, Nil, Nil), a) == Nil
  {
  }

  /** erase(it) as written, at node `n` of `t`: the first two cases advance a copy of the
      iterator with ++ as written and then call deleteNode as written; the third splices in the
      successor, which it returns. It faults exactly when `n` is the root and has no right
      subtree, in ++, before deleteNode is reached; otherwise it gives the intended tree and
      iterator. */
  function EraseAsWritten(t: Tree, n: Node): (r: Outcome<(Tree, Node?)>)
    requires Distinct(t) && n in Nodes(t)
    ensures r.Done? ==> r.value == (Remove(t, n), Succ(t, n))
    ensures r.NullDeref? <==> n == t.node && t.right.Nil?
    ensures r.NullDeref? <==> IncrementAsWritten(t, n).NullDeref?
  {
    var cs := Locate(t, n);
    var c, s := cs.0, cs.1;
    LocateTop(Top, t, n);
    if s.left.Nil? || s.right.Nil? then
      match IncrementAsWritten(t, n)
      case NullDeref => NullDeref
      case Done(next) =>
        match DeleteNodeAsWritten(c, s, s.left.Nil?)
        case NullDeref => NullDeref
        case Done(u) => Done((u, next))
    else
      SuccDown(c, s);
      MinParts(s.right);
      var S: Node? := Min(s.right).node;
      Done((Plug(c, RemoveRoot(s)), S))
  }

  /** Erasing the root 2 of a tree whose only other element 1 is its left child faults in ++,
      where the intended erase leaves the lone leaf 1 and returns end(). */
  lemma EraseRootFaults(a: Node, b: Node)
    requires a != b
    ensures Distinct(Br(a, 2, Br(b, 1, Nil, Nil), Nil))
    ensures EraseAsWritten(Br(a, 2, Br(b, 1, Nil, Nil), Nil), a) == NullDeref
    ensures Remove(Br(a, 2, Br(b, 1, Nil, Nil), Nil), a) == Br(b, 1, Nil, Nil)
    ensures Succ(Br(a, 2, Br(b, 1, Nil, Nil), Nil), a) == null
  {
    var t := Br(a, 2, Br(b, 1, Nil, Nil), Nil);
    assert Nodes(t.left) == {b};
    assert Order(t) == [b] + [a];
    SuccUp(Top, t, [b], a);
  }
}
