/** Paths into a tree: a `Ctx` is the part of a tree around one subtree (a zipper),
    innermost step first. The descents of find and insert push steps onto it, the
    parent-link walks of the iterator pop them, and erase splices at its hole. */
module Paths {
  import opened TreeNode
  import opened Shapes

  /** InL: the hole is the left child of `node`; InR: the hole is its right child. */
  datatype Ctx =
    | Top
    | InL(node: Node, data: int, right: Tree, up: Ctx)
    | InR(node: Node, data: int, left: Tree, up: Ctx)

  /** The tree obtained by filling the hole of `c` with `s`. */
  function Plug(c: Ctx, s: Tree): (t: Tree)
    ensures s.Br? ==> t.Br?
  {
    match c
    case Top => s
    case InL(n, d, r, up) => Plug(up, Br(n, d, s, r))
    case InR(n, d, l, up) => Plug(up, Br(n, d, l, s))
  }

  function CtxNodes(c: Ctx): set<Node> {
    match c
    case Top => {}
    case InL(n, _, r, up) => {n} + Nodes(r) + CtxNodes(up)
    case InR(n, _, l, up) => {n} + Nodes(l) + CtxNodes(up)
  }

  /** The node the hole hangs below, or `p` when the hole is the whole tree. */
  function Above(c: Ctx, p: Node?): Node? {
    if c.Top? then p else c.node
  }

  /** The link facts of the nodes of `c` when the hole holds a tree rooted at `h`. */
  function CtxFacts(c: Ctx, h: Node?, p: Node?): set<Fact> {
    match c
    case Top => {}
    case InL(n, d, r, up) => {Fact(n, d, h, RootOf(r), Above(up, p))} + Facts(r, n) + CtxFacts(up, n, p)
    case InR(n, d, l, up) => {Fact(n, d, RootOf(l), h, Above(up, p))} + Facts(l, n) + CtxFacts(up, n, p)
  }

  /** The in-order nodes of `c` that come before the hole. */
  function Before(c: Ctx): seq<Node> {
    match c
    case Top => []
    case InL(_, _, _, up) => Before(up)
    case InR(n, _, l, up) => Before(up) + Order(l) + [n]
  }

  /** The in-order nodes of `c` that come after the hole. */
  function After(c: Ctx): seq<Node> {
    match c
    case Top => []
    case InL(n, _, r, up) => [n] + Order(r) + After(up)
    case InR(_, _, _, up) => After(up)
  }

  /** The elements of `c` that come before the hole, in in-order. */
  function BeforeKeys(c: Ctx): seq<int> {
    match c
    case Top => []
    case InL(_, _, _, up) => BeforeKeys(up)
    case InR(_, d, l, up) => BeforeKeys(up) + Keys(l) + [d]
  }

  /** The elements of `c` that come after the hole, in in-order. */
  function AfterKeys(c: Ctx): seq<int> {
    match c
    case Top => []
    case InL(_, d, r, up) => [d] + Keys(r) + AfterKeys(up)
    case InR(_, _, _, up) => AfterKeys(up)
  }

  function CtxValues(c: Ctx): set<int> {
    match c
    case Top => {}
    case InL(_, d, r, up) => {d} + Values(r) + CtxValues(up)
    case InR(_, d, l, up) => {d} + Values(l) + CtxValues(up)
  }

  /** Split `s` around its node `n`, keeping `c` as the outer part. */
  function LocateIn(c: Ctx, s: Tree, n: Node): (cs: (Ctx, Tree))
    requires n in Nodes(s)
    ensures Plug(cs.0, cs.1) == Plug(c, s) && cs.1.Br? && cs.1.node == n
    decreases s
  {
    if s.node == n then (c, s)
    else if n in Nodes(s.left) then LocateIn(InL(s.node, s.data, s.right, c), s.left, n)
    else LocateIn(InR(s.node, s.data, s.left, c), s.right, n)
  }

  /** The path from the root of `t` down to its node `n`, and the subtree rooted at `n`. */
  function Locate(t: Tree, n: Node): (cs: (Ctx, Tree))
    requires n in Nodes(t)
    ensures Plug(cs.0, cs.1) == t && cs.1.Br? && cs.1.node == n
  {
    LocateIn(Top, t, n)
  }

  /** Regrouping a sequence around one of its entries. */
  lemma Regroup<X>(a: seq<X>, l: seq<X>, x: X, r: seq<X>, b: seq<X>)
    ensures a + (l + [x] + r) + b == (a + l) + [x] + (r + b)
  {
  }

  /** Regrouping when the hole is a left subtree. */
  lemma RegroupLeft<X>(a: seq<X>, m: seq<X>, x: X, r: seq<X>, b: seq<X>)
    ensures a + (m + [x] + r) + b == a + m + ([x] + r + b)
  {
  }

  /** Regrouping when the hole is a right subtree. */
  lemma RegroupRight<X>(a: seq<X>, l: seq<X>, x: X, m: seq<X>, b: seq<X>)
    ensures a + (l + [x] + m) + b == (a + l + [x]) + m + b
  {
  }

  /** Regrouping a join of two parts. */
  lemma RegroupPair<X>(a: seq<X>, l: seq<X>, r: seq<X>, b: seq<X>)
    ensures a + (l + r) + b == (a + l) + (r + b)
  {
  }

  /** A plugged tree is made of the context's nodes and the hole's nodes. */
  lemma {:induction false} PlugNodes(c: Ctx, s: Tree)
    ensures Nodes(Plug(c, s)) == CtxNodes(c) + Nodes(s)
  {
    match c
    case Top =>
    case InL(n, d, r, up) =>
      PlugNodes(up, Br(n, d, s, r));
    case InR(n, d, l, up) =>
      PlugNodes(up, Br(n, d, l, s));
  }

  /** The in-order sequence of a plugged tree: the context's nodes before the hole, the
      hole's part, the context's nodes after it. */
  lemma {:induction false} PlugOrder(c: Ctx, s: Tree)
    ensures Order(Plug(c, s)) == Before(c) + Order(s) + After(c)
  {
    match c
    case Top =>
    case InL(n, d, r, up) =>
      PlugOrder(up, Br(n, d, s, r));
      RegroupLeft(Before(up), Order(s), n, Order(r), After(up));
    case InR(n, d, l, up) =>
      PlugOrder(up, Br(n, d, l, s));
      RegroupRight(Before(up), Order(l), n, Order(s), After(up));
  }

  /** The elements of a plugged tree in in-order, split as for `PlugOrder`. */
  lemma {:induction false} PlugKeys(c: Ctx, s: Tree)
    ensures Keys(Plug(c, s)) == BeforeKeys(c) + Keys(s) + AfterKeys(c)
    ensures |BeforeKeys(c)| == |Before(c)|
  {
    match c
    case Top =>
    case InL(n, d, r, up) =>
      PlugKeys(up, Br(n, d, s, r));
      RegroupLeft(BeforeKeys(up), Keys(s), d, Keys(r), AfterKeys(up));
    case InR(n, d, l, up) =>
      PlugKeys(up, Br(n, d, l, s));
      RegroupRight(BeforeKeys(up), Keys(l), d, Keys(s), AfterKeys(up));
      OrderShape(l);
  }

  /** The hole's part of a search tree is a search tree. */
  lemma {:induction false} PlugOrderedPart(c: Ctx, s: Tree)
    requires Ordered(Plug(c, s))
    ensures Ordered(s)
  {
    match c
    case Top =>
    case InL(n, d, r, up) =>
      PlugOrderedPart(up, Br(n, d, s, r));
    case InR(n, d, l, up) =>
      PlugOrderedPart(up, Br(n, d, l, s));
  }

  /** Replacing the hole's part by a search tree whose elements are among the old ones keeps
      the whole a search tree. */
  lemma {:induction false} PlugOrdered(c: Ctx, s: Tree, s': Tree)
    requires Ordered(Plug(c, s)) && Ordered(s') && Values(s') <= Values(s)
    ensures Ordered(Plug(c, s'))
  {
    match c
    case Top =>
    case InL(n, d, r, up) =>
      PlugOrderedPart(up, Br(n, d, s, r));
      PlugOrdered(up, Br(n, d, s, r), Br(n, d, s', r));
    case InR(n, d, l, up) =>
      PlugOrderedPart(up, Br(n, d, l, s));
      PlugOrdered(up, Br(n, d, l, s), Br(n, d, l, s'));
  }

  /** The link facts of a plugged tree: the context's facts around the hole's root, and the
      hole's facts below the node the hole hangs from. */
  lemma {:induction false} PlugFacts(c: Ctx, s: Tree, p: Node?)
    ensures Facts(Plug(c, s), p) == CtxFacts(c, RootOf(s), p) + Facts(s, Above(c, p))
  {
    match c
    case Top =>
    case InL(n, d, r, up) =>
      PlugFacts(up, Br(n, d, s, r), p);
    case InR(n, d, l, up) =>
      PlugFacts(up, Br(n, d, l, s), p);
  }

  /** A plugged tree without repeated nodes has a hole part without repeated nodes,
      disjoint from the context. */
  lemma {:induction false} PlugDistinct(c: Ctx, s: Tree)
    requires Distinct(Plug(c, s))
    ensures Distinct(s) && CtxNodes(c) !! Nodes(s)
    ensures c.InL? ==> c.node !in Nodes(s) && Nodes(s) !! Nodes(c.right)
    ensures c.InR? ==> c.node !in Nodes(s) && Nodes(s) !! Nodes(c.left)
  {
    match c
    case Top =>
    case InL(n, d, r, up) =>
      PlugDistinct(up, Br(n, d, s, r));
    case InR(n, d, l, up) =>
      PlugDistinct(up, Br(n, d, l, s));
  }

  /** Replacing the hole's part by a tree without repeated nodes, disjoint from the context,
      keeps the whole free of repeated nodes. */
  lemma {:induction false} PlugReplace(c: Ctx, s: Tree, s': Tree)
    requires Distinct(Plug(c, s)) && Distinct(s') && CtxNodes(c) !! Nodes(s')
    ensures Distinct(Plug(c, s'))
  {
    match c
    case Top =>
    case InL(n, d, r, up) =>
      PlugDistinct(up, Br(n, d, s, r));
      PlugReplace(up, Br(n, d, s, r), Br(n, d, s', r));
    case InR(n, d, l, up) =>
      PlugDistinct(up, Br(n, d, l, s));
      PlugReplace(up, Br(n, d, l, s), Br(n, d, l, s'));
  }

  lemma {:induction false} CtxFactsAbout(c: Ctx, h: Node?, p: Node?)
    ensures forall f | f in CtxFacts(c, h, p) :: f.node in CtxNodes(c)
  {
    match c
    case Top =>
    case InL(n, d, r, up) =>
      FactsAbout(r, n);
      CtxFactsAbout(up, n, p);
    case InR(n, d, l, up) =>
      FactsAbout(l, n);
      CtxFactsAbout(up, n, p);
  }

  /** The in-order nodes of a plugged tree around the hole's root. */
  lemma PlugOrderAt(c: Ctx, s: Tree)
    requires s.Br?
    ensures Order(Plug(c, s)) == (Before(c) + Order(s.left)) + [s.node] + (Order(s.right) + After(c))
  {
    PlugOrder(c, s);
    Regroup(Before(c), Order(s.left), s.node, Order(s.right), After(c));
  }

  /** When the node `n` has a right subtree, its in-order successor is the first node of
      that subtree. */
  lemma SuccDown(c: Ctx, s: Tree)
    requires s.Br? && s.right.Br? && Distinct(Plug(c, s))
    ensures Succ(Plug(c, s), s.node) == Order(s.right)[0]
  {
    PlugOrderAt(c, s);
    SuccSplit(Plug(c, s), Before(c) + Order(s.left), s.node, Order(s.right) + After(c));
  }

  /** When `n` is the last node of the hole's part, its successor is the first node after
      the hole, or end. */
  lemma SuccUp(c: Ctx, s: Tree, a: seq<Node>, n: Node)
    requires Distinct(Plug(c, s)) && Order(s) == a + [n]
    ensures c.InL? ==> Succ(Plug(c, s), n) == c.node
    ensures c.Top? ==> Succ(Plug(c, s), n) == null
  {
    PlugOrder(c, s);
    var b := After(c);
    assert Order(Plug(c, s)) == (Before(c) + a) + [n] + b;
    SuccSplit(Plug(c, s), Before(c) + a, n, b);
    if c.InL? {
      assert b[0] == c.node;
    }
  }

  /** When `n` has a left subtree, its in-order predecessor is the last node of that subtree. */
  lemma PredDown(c: Ctx, s: Tree)
    requires s.Br? && s.left.Br? && Distinct(Plug(c, s))
    ensures Pred(Plug(c, s), s.node) == Order(s.left)[|Order(s.left)| - 1]
  {
    PlugOrderAt(c, s);
    var a := Before(c) + Order(s.left);
    SuccSplit(Plug(c, s), a, s.node, Order(s.right) + After(c));
    assert a[|a| - 1] == Order(s.left)[|Order(s.left)| - 1];
  }

  /** When `n` is the first node of the hole's part, its predecessor is the last node before
      the hole, or end. */
  lemma PredUp(c: Ctx, s: Tree, n: Node, b: seq<Node>)
    requires Distinct(Plug(c, s)) && Order(s) == [n] + b
    ensures c.InR? ==> Pred(Plug(c, s), n) == c.node
    ensures c.Top? ==> Pred(Plug(c, s), n) == null
  {
    PlugOrder(c, s);
    var a := Before(c);
    assert Order(Plug(c, s)) == a + [n] + (b + After(c));
    SuccSplit(Plug(c, s), a, n, b + After(c));
    if c.InR? {
      assert a[|a| - 1] == c.node;
    }
  }
}
