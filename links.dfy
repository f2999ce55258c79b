/** Bookkeeping for updates of the node graph: which link facts an update of a few nodes
    changes, and how the facts of the whole tree are re-established afterwards from the
    facts of the written nodes alone. */
module Links {
  import opened TreeNode
  import opened Shapes
  import opened Paths

  /** The node objects the facts of `E` are about. */
  function NodesOf(E: set<Fact>): set<Node> {
    set f | f in E :: f.node
  }

  /** The fact of the root of `t` when it hangs below `p` (none for the empty tree). */
  function RootFacts(t: Tree, p: Node?): set<Fact> {
    if t.Br? then {Fact(t.node, t.data, RootOf(t.left), RootOf(t.right), p)} else {}
  }

  /** The fact of the node the hole of `c` hangs from, when the hole holds a tree rooted at `h`. */
  function InnerFacts(c: Ctx, h: Node?, p: Node?): set<Fact> {
    match c
    case Top => {}
    case InL(n, d, r, up) => {Fact(n, d, h, RootOf(r), Above(up, p))}
    case InR(n, d, l, up) => {Fact(n, d, RootOf(l), h, Above(up, p))}
  }

  /** The node the hole of `c` hangs from, if any. */
  function InnerNodes(c: Ctx): set<Node> {
    if c.Top? then {} else {c.node}
  }

  /** The root node of `t`, if any. */
  function RootNodes(t: Tree): set<Node> {
    if t.Br? then {t.node} else {}
  }

  /** The outermost node of a non-empty path: the root of every tree plugged into it. */
  function OuterNode(c: Ctx): Node
    requires !c.Top?
  {
    if c.up.Top? then c.node else OuterNode(c.up)
  }

  /** The fact of the outermost node of `c` when that node hangs below `p`. */
  function OuterFacts(c: Ctx, h: Node?, p: Node?): set<Fact> {
    match c
    case Top => {}
    case InL(n, d, r, up) => if up.Top? then {Fact(n, d, h, RootOf(r), p)} else OuterFacts(up, n, p)
    case InR(n, d, l, up) => if up.Top? then {Fact(n, d, RootOf(l), h, p)} else OuterFacts(up, n, p)
  }

  // ---------------------------------------------------------------------------
  // Shape of the fact sets

  /** In a tree without repeated nodes, each node has one fact. */
  lemma {:induction false} FactOf(t: Tree, p: Node?, f: Fact, g: Fact)
    requires Distinct(t) && f in Facts(t, p) && g in Facts(t, p) && f.node == g.node
    ensures f == g
  {
    match t
    case Br(n, d, l, r) =>
      FactsAbout(l, n);
      FactsAbout(r, n);
      if f in Facts(l, n) && g in Facts(l, n) {
        FactOf(l, n, f, g);
      } else if f in Facts(r, n) && g in Facts(r, n) {
        FactOf(r, n, f, g);
      }
  }

  /** Facts of a tree without repeated nodes that are about the nodes of some of its facts
      are among those facts. */
  lemma Only(t: Tree, E: set<Fact>)
    requires Distinct(t) && E <= Facts(t, null)
    ensures forall f | f in Facts(t, null) && f.node in NodesOf(E) :: f in E
  {
    forall f | f in Facts(t, null) && f.node in NodesOf(E)
      ensures f in E
    {
      var e :| e in E && e.node == f.node;
      FactOf(t, null, f, e);
    }
  }

  /** Facts of a tree are about its nodes. */
  lemma NodesOfSub(E: set<Fact>, t: Tree, p: Node?)
    requires E <= Facts(t, p)
    ensures NodesOf(E) <= Nodes(t)
  {
    FactsAbout(t, p);
  }

  /** The fact of the outermost node of a path is the root fact of what it plugs to. */
  lemma {:induction false} OuterRoot(c: Ctx, x: Tree, p: Node?)
    requires !c.Top?
    ensures OuterFacts(c, RootOf(x), p) == RootFacts(Plug(c, x), p)
  {
    match c
    case InL(n, d, r, up) =>
      if !up.Top? {
        OuterRoot(up, Br(n, d, x, r), p);
      }
    case InR(n, d, l, up) =>
      if !up.Top? {
        OuterRoot(up, Br(n, d, l, x), p);
      }
  }

  /** Hanging `t` below another parent changes only the fact of its root. */
  lemma FactsReparent(t: Tree, p: Node?, q: Node?)
    ensures Facts(t, q) <= Facts(t, p) + RootFacts(t, q)
    ensures RootFacts(t, q) <= Facts(t, q)
    ensures NodesOf(RootFacts(t, q)) <= Nodes(t)
  {
  }

  /** Putting a tree with another root into the hole changes only the fact of the node above the hole. */
  lemma CtxFactsHole(c: Ctx, h: Node?, h': Node?, p: Node?)
    ensures CtxFacts(c, h', p) <= CtxFacts(c, h, p) + InnerFacts(c, h', p)
    ensures InnerFacts(c, h', p) <= CtxFacts(c, h', p)
    ensures NodesOf(InnerFacts(c, h', p)) <= CtxNodes(c)
    ensures !c.Top? ==> NodesOf(InnerFacts(c, h', p)) == {c.node}
  {
  }

  /** Hanging the whole path below another parent changes only the fact of its outermost node. */
  lemma {:induction false} CtxFactsParent(c: Ctx, h: Node?, p: Node?, p': Node?)
    ensures CtxFacts(c, h, p') <= CtxFacts(c, h, p) + OuterFacts(c, h, p')
    ensures OuterFacts(c, h, p') <= CtxFacts(c, h, p')
    ensures !c.Top? ==> NodesOf(OuterFacts(c, h, p')) == {OuterNode(c)}
  {
    match c
    case Top =>
    case InL(n, d, r, up) =>
      CtxFactsParent(up, n, p, p');
    case InR(n, d, l, up) =>
      CtxFactsParent(up, n, p, p');
  }

  /** Both at once. */
  lemma CtxFactsRehang(c: Ctx, h: Node?, h': Node?, p: Node?, p': Node?)
    ensures CtxFacts(c, h', p') <= CtxFacts(c, h, p) + InnerFacts(c, h', p') + OuterFacts(c, h', p')
    ensures InnerFacts(c, h', p') + OuterFacts(c, h', p') <= CtxFacts(c, h', p')
  {
    match c
    case Top =>
    case InL(n, d, r, up) =>
      CtxFactsParent(up, n, p, p');
    case InR(n, d, l, up) =>
      CtxFactsParent(up, n, p, p');
  }

  /** Replacing the hole's part by one with the same root changes the facts of that root and
      of what hangs below it, and nothing else. */
  lemma PlugFactsSameRoot(c: Ctx, s: Tree, s': Tree, p: Node?)
    requires s.Br? && s'.Br? && s.node == s'.node
    ensures Facts(Plug(c, s'), p) <= Facts(Plug(c, s), p) + RootFacts(s', Above(c, p)) + Facts(s'.left, s.node) + Facts(s'.right, s.node)
    ensures RootFacts(s', Above(c, p)) + Facts(s'.left, s.node) + Facts(s'.right, s.node) <= Facts(Plug(c, s'), p)
    ensures Facts(s.left, s.node) + Facts(s.right, s.node) <= Facts(Plug(c, s), p)
  {
    PlugFacts(c, s, p);
    PlugFacts(c, s', p);
  }

  /** Splicing out the root of the hole, whose subtree `h` (one of its children) moves up:
      only the fact of the node above the hole and the fact of the root of `h` change, and
      these are the only facts about those two nodes in the new tree. */
  lemma SpliceFacts(c: Ctx, s: Tree, h: Tree)
    requires s.Br? && (h == s.left || h == s.right) && Distinct(Plug(c, h))
    ensures Covers(Facts(Plug(c, s), null), Facts(Plug(c, h), null),
                   InnerFacts(c, RootOf(h), null) + RootFacts(h, Above(c, null)), InnerNodes(c) + RootNodes(h))
  {
    SpliceOldOrNew(c, s, h);
    SpliceOnly(c, h);
  }

  /** After the splice every fact is an old one or one of the two changed ones. */
  lemma SpliceOldOrNew(c: Ctx, s: Tree, h: Tree)
    requires s.Br? && (h == s.left || h == s.right)
    ensures Facts(Plug(c, h), null) <= Facts(Plug(c, s), null) + InnerFacts(c, RootOf(h), null) + RootFacts(h, Above(c, null))
  {
    var A := Above(c, null);
    PlugFacts(c, s, null);
    PlugFacts(c, h, null);
    CtxFactsHole(c, s.node, RootOf(h), null);
    FactsReparent(h, s.node, A);
    ChildFacts(s, h, A);
  }

  /** The facts of a child subtree, hung below its parent, are facts of the parent's tree. */
  lemma ChildFacts(s: Tree, h: Tree, p: Node?)
    requires s.Br? && (h == s.left || h == s.right)
    ensures Facts(h, s.node) <= Facts(s, p)
  {
  }

  /** The two changed facts are the only facts about their nodes after the splice. */
  lemma SpliceOnly(c: Ctx, h: Tree)
    requires Distinct(Plug(c, h))
    ensures forall f | f in Facts(Plug(c, h), null) && f.node in InnerNodes(c) + RootNodes(h) ::
              f in InnerFacts(c, RootOf(h), null) + RootFacts(h, Above(c, null))
  {
    var A := Above(c, null);
    var G, E, W := Facts(Plug(c, h), null), InnerFacts(c, RootOf(h), null) + RootFacts(h, A), InnerNodes(c) + RootNodes(h);
    PlugFacts(c, h, null);
    CtxFactsHole(c, RootOf(h), RootOf(h), null);
    FactsReparent(h, A, A);
    forall f | f in G && f.node in W
      ensures f in E
    {
      if !c.Top? && f.node == c.node {
        var e := Fact(c.node, c.data, if c.InL? then RootOf(h) else RootOf(c.left), if c.InL? then RootOf(c.right) else RootOf(h), Above(c.up, null));
        assert e in InnerFacts(c, RootOf(h), null);
        FactOf(Plug(c, h), null, f, e);
      } else {
        var e := Fact(h.node, h.data, RootOf(h.left), RootOf(h.right), A);
        assert e in RootFacts(h, A);
        FactOf(Plug(c, h), null, f, e);
      }
    }
  }

  /** The outermost node of a path is one of its nodes, and the root of what is plugged into it. */
  lemma {:induction false} PlugRoot(c: Ctx, s: Tree)
    requires !c.Top?
    ensures OuterNode(c) in CtxNodes(c) && RootOf(Plug(c, s)) == OuterNode(c)
  {
    match c
    case InL(n, d, r, up) =>
      if !up.Top? {
        PlugRoot(up, Br(n, d, s, r));
      }
    case InR(n, d, l, up) =>
      if !up.Top? {
        PlugRoot(up, Br(n, d, l, s));
      }
  }

  // ---------------------------------------------------------------------------
  // Reading the heap

  /** What the heap holds at the root of the hole of a tree whose facts hold, and at the node above it. */
  lemma LinksAt(c: Ctx, s: Tree, p: Node?, R: set<Node>)
    requires s.Br? && Holds(Facts(Plug(c, s), p), R)
    ensures s.node in R
    ensures s.node.data == s.data && s.node.left == RootOf(s.left) && s.node.right == RootOf(s.right)
    ensures s.node.parent == Above(c, p)
    ensures c.InL? ==> c.node in R && c.node.left == s.node && c.node.right == RootOf(c.right)
    ensures c.InR? ==> c.node in R && c.node.right == s.node && c.node.left == RootOf(c.left)
    ensures !c.Top? ==> c.node.data == c.data && c.node.parent == Above(c.up, p)
  {
    PlugFacts(c, s, p);
    assert Fact(s.node, s.data, RootOf(s.left), RootOf(s.right), Above(c, p)) in Facts(Plug(c, s), p);
    if !c.Top? {
      CtxFactsHole(c, s.node, s.node, p);
      var E := InnerFacts(c, s.node, p);
      assert E <= Facts(Plug(c, s), p);
    }
  }

  /** What the heap holds at the root of a subtree whose facts are among facts that hold. */
  lemma RootLinks(u: Tree, q: Node?, F: set<Fact>, R: set<Node>)
    requires u.Br? && Facts(u, q) <= F && Holds(F, R)
    ensures u.node in R && u.node.data == u.data && u.node.parent == q
    ensures u.node.left == RootOf(u.left) && u.node.right == RootOf(u.right)
    ensures Facts(u.left, u.node) <= F && Facts(u.right, u.node) <= F
  {
    assert Fact(u.node, u.data, RootOf(u.left), RootOf(u.right), q) in Facts(u, q);
  }

  /** Facts of a subset hold when the facts of the whole set do. */
  lemma HoldsSub(F: set<Fact>, G: set<Fact>, R: set<Node>, R': set<Node>)
    requires Holds(F, R) && G <= F && (forall f | f in G :: f.node in R') && R' <= R
    ensures Holds(G, R')
  {
  }

  /** The facts of `F` about nodes outside `W` hold. Reading only `R - W`, this survives
      any update that writes nodes of `W` (and fresh ones) only. */
  ghost predicate HoldsOutside(F: set<Fact>, R: set<Node>, W: set<Node>)
    reads R - W
  {
    forall f | f in F && f.node !in W :: f.node in R && Matches(f)
  }

  lemma HoldsOutsideOf(F: set<Fact>, R: set<Node>, W: set<Node>)
    requires Holds(F, R)
    ensures HoldsOutside(F, R, W)
  {
  }

  /** The facts `G` of a new tree are old facts `F` or new facts `E`, and the new facts are
      the only ones about the written nodes `W`. */
  ghost predicate Covers(F: set<Fact>, G: set<Fact>, E: set<Fact>, W: set<Node>) {
    G <= F + E && forall f | f in G && f.node in W :: f in E
  }

  /** Facts that hold over two parts hold over their union. */
  lemma HoldsJoin(E1: set<Fact>, W1: set<Node>, E2: set<Fact>, W2: set<Node>)
    requires Holds(E1, W1) && Holds(E2, W2)
    ensures Holds(E1 + E2, W1 + W2)
  {
  }

  /** Two facts that hold in the heap. */
  lemma HoldsPair(e1: Fact, e2: Fact)
    requires Matches(e1) && Matches(e2)
    ensures Holds({e1, e2}, {e1.node, e2.node})
  {
  }

  /** After an update that wrote the nodes `V` of `R` and created the other nodes of `W`,
      the facts `G` of the new tree hold when every one is either an old fact about a node
      that was not written or one of the facts `E` about the written nodes, checked directly. */
  lemma Reestablish(F: set<Fact>, R: set<Node>, V: set<Node>, G: set<Fact>, E: set<Fact>, W: set<Node>)
    requires HoldsOutside(F, R, V) && V <= W && Covers(F, G, E, W) && Holds(E, W)
    ensures Holds(G, R + W)
  {
  }
}
