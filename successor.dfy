/** erase's third case: the erased node has two subtrees, and its in-order successor (the
    leftmost node of its right subtree) leaves its own place and takes the erased node's. */
module Successor {
  import opened TreeNode
  import opened Shapes
  import opened Paths
  import opened Links
  import opened Updates

  /** `s` is rooted at the node to erase and has two subtrees; `s2` is the leftmost branch
      of the right subtree, at the end of the left path `c2`. */
  predicate Succession(s: Tree, c2: Ctx, s2: Tree) {
    s.Br? && s.left.Br? && s.right.Br? && s2.Br? && s2.left.Nil? && LeftPath(c2) && Plug(c2, s2) == s.right
  }

  /** The successor's right subtree takes its place; the rest of the right subtree stays. */
  lemma SuccessorShape(s: Tree, c2: Ctx, s2: Tree)
    requires Succession(s, c2, s2)
    ensures Min(s.right) == s2 && RemoveMin(s.right) == Plug(c2, s2.right)
    ensures RemoveRoot(s) == Br(s2.node, s2.data, s.left, Plug(c2, s2.right))
  {
    MinPlug(c2, s2);
  }

  /** The facts that change in the right subtree when the successor comes from deeper down:
      of its root, now below the successor; of the successor's old parent, which adopts the
      successor's right subtree; and of the root of that subtree. */
  function RestFacts(c2: Ctx, s2: Tree): set<Fact>
    requires s2.Br?
  {
    if c2.Top? then {}
    else RootFacts(Plug(c2, s2.right), s2.node) + InnerFacts(c2, RootOf(s2.right), s2.node) + RootFacts(s2.right, c2.node)
  }

  /** The facts of the successor in its new place, of the left subtree's root below it, of the
      node above the erased one, and those of the right subtree that change. */
  function NewFacts(c: Ctx, s: Tree, c2: Ctx, s2: Tree): set<Fact>
    requires s.Br? && s2.Br?
  {
    var S := s2.node;
    RootFacts(Br(S, s2.data, s.left, Plug(c2, s2.right)), Above(c, null)) + RootFacts(s.left, S)
    + InnerFacts(c, S, null) + RestFacts(c2, s2)
  }

  /** The right subtree without the successor, hung below the successor: its facts are old
      facts of the right subtree or changed ones. */
  lemma RestCovered(c2: Ctx, s2: Tree, d: Node)
    requires s2.Br? && s2.left.Nil?
    ensures Facts(Plug(c2, s2.right), s2.node) <= Facts(Plug(c2, s2), d) + RestFacts(c2, s2)
    ensures RestFacts(c2, s2) <= Facts(Plug(c2, s2.right), s2.node)
  {
    var S, rs := s2.node, s2.right;
    if !c2.Top? {
      PlugFacts(c2, rs, S);
      PlugFacts(c2, s2, d);
      CtxFactsRehang(c2, S, RootOf(rs), d, S);
      FactsReparent(rs, S, c2.node);
      OuterRoot(c2, rs, S);
      assert Facts(rs, S) <= Facts(s2, Above(c2, d));
    }
  }

  /** The facts after the splice are old facts or new ones, and the new ones are the only
      facts about their nodes. */
  lemma SuccessorCovers(c: Ctx, s: Tree, c2: Ctx, s2: Tree)
    requires Succession(s, c2, s2) && Distinct(Plug(c, s))
    ensures Covers(Facts(Plug(c, s), null), Facts(Plug(c, RemoveRoot(s)), null), NewFacts(c, s, c2, s2), NodesOf(NewFacts(c, s, c2, s2)))
    ensures NewFacts(c, s, c2, s2) <= Facts(Plug(c, RemoveRoot(s)), null)
  {
    SuccessorOldOrNew(c, s, c2, s2);
    SuccessorNewHold(c, s, c2, s2);
    SpliceDistinct(c, s);
    Only(Plug(c, RemoveRoot(s)), NewFacts(c, s, c2, s2));
  }

  /** Every fact after the splice is an old fact or a new one. */
  lemma SuccessorOldOrNew(c: Ctx, s: Tree, c2: Ctx, s2: Tree)
    requires Succession(s, c2, s2)
    ensures Facts(Plug(c, RemoveRoot(s)), null) <= Facts(Plug(c, s), null) + NewFacts(c, s, c2, s2)
  {
    SuccessorShape(s, c2, s2);
    var S, s' := s2.node, RemoveRoot(s);
    PlugFacts(c, s, null);
    PlugFacts(c, s', null);
    CtxFactsHole(c, s.node, S, null);
    FactsReparent(s.left, s.node, S);
    RestCovered(c2, s2, s.node);
  }

  /** The new facts are facts of the tree after the splice. */
  lemma SuccessorNewHold(c: Ctx, s: Tree, c2: Ctx, s2: Tree)
    requires Succession(s, c2, s2)
    ensures NewFacts(c, s, c2, s2) <= Facts(Plug(c, RemoveRoot(s)), null)
  {
    SuccessorShape(s, c2, s2);
    var S, s' := s2.node, RemoveRoot(s);
    PlugFacts(c, s', null);
    CtxFactsHole(c, s.node, S, null);
    FactsReparent(s.left, s.node, S);
    RestCovered(c2, s2, s.node);
  }

  /** Facts about the nodes of some facts, all of them holding. */
  lemma HoldsNodesOf(E: set<Fact>)
    requires forall f | f in E :: Matches(f)
    ensures Holds(E, NodesOf(E))
  {
  }

  /** The old facts of the nodes erase's third case reads or writes: the erased node `d`, the
      successor `S`, the root `L` of `d`'s left subtree, `d`'s parent `P`, `S`'s parent `Q`,
      the root `R0` of `d`'s right subtree and `S`'s right child `RS`. Where one of these is
      absent (`d` is the root, `S` is `d`'s right child, `S` has no right child) the fact of
      `d` or `S` stands in for it. */
  datatype Scene = Scene(d: Fact, S: Fact, L: Fact, P: Fact, Q: Fact, R0: Fact, RS: Fact) {
    /** `S` is not `d`'s right child: it comes from deeper down the right subtree. */
    predicate Deep() {
      d.right != S.node
    }
  }

  function SceneOf(c: Ctx, s: Tree, c2: Ctx, s2: Tree): Scene
    requires Succession(s, c2, s2)
  {
    var d, S := s.node, s2.node;
    var fd := Fact(d, s.data, s.left.node, s.right.node, Above(c, null));
    var fS := Fact(S, s2.data, null, RootOf(s2.right), Above(c2, d));
    var fP := if c.Top? then fd
              else if c.InL? then Fact(c.node, c.data, d, RootOf(c.right), Above(c.up, null))
              else Fact(c.node, c.data, RootOf(c.left), d, Above(c.up, null));
    var fQ := if c2.InL? then Fact(c2.node, c2.data, S, RootOf(c2.right), Above(c2.up, d)) else fd;
    var fRS := if s2.right.Br? then Fact(s2.right.node, s2.right.data, RootOf(s2.right.left), RootOf(s2.right.right), S) else fS;
    Scene(fd, fS, Fact(s.left.node, s.left.data, RootOf(s.left.left), RootOf(s.left.right), d), fP, fQ,
          Fact(s.right.node, s.right.data, RootOf(s.right.left), RootOf(s.right.right), d), fRS)
  }

  /** The heap holds the old facts of the scene. */
  ghost predicate Linked(z: Scene)
    reads z.d.node, z.S.node, z.L.node, z.P.node, z.Q.node, z.R0.node, z.RS.node
  {
    Matches(z.d) && Matches(z.S) && Matches(z.L) && Matches(z.P) && Matches(z.Q) && Matches(z.R0) && Matches(z.RS)
  }

  /** How the nodes of the scene hang together, and which of them are distinct. */
  predicate Shaped(z: Scene) {
    z.d.left == z.L.node && z.d.right == z.R0.node && z.S.left == null
    && z.S.node != z.L.node && z.S.node != z.d.node && z.L.node != z.d.node
    && (z.d.parent != null ==>
          z.P.node == z.d.parent && z.P.node != z.S.node && z.P.node != z.L.node && z.P.node != z.d.node
          && (z.P.left == z.d.node <==> z.P.right != z.d.node))
    && (z.S.right != null ==>
          z.RS.node == z.S.right && z.RS.node != z.S.node && z.RS.node != z.d.node && z.RS.node != z.L.node
          && z.S.right != z.d.parent)
    && (z.Deep() ==>
          z.Q.node == z.S.parent && z.Q.left == z.S.node && z.Q.node != z.S.node && z.Q.node != z.d.node
          && z.Q.node != z.L.node && z.S.parent != z.d.parent
          && z.R0.node != z.S.node && z.R0.node != z.L.node && z.R0.node != z.d.node && z.d.right != z.d.parent)
    && (z.Deep() && z.S.right != null ==> z.RS.node != z.Q.node && z.RS.node != z.R0.node)
  }

  /** The nodes erase writes are among `W`, and `d` is not. */
  predicate Framed(z: Scene, W: set<Node>) {
    z.d.node !in W && z.S.node in W && z.L.node in W && (z.d.parent != null ==> z.P.node in W)
    && (z.Deep() ==> z.Q.node in W && z.R0.node in W && (z.S.right != null ==> z.RS.node in W))
  }

  /** The heap holds the new facts of the scene: `S` has `d`'s left subtree, `d`'s right
      subtree unless it came from there, and `d`'s parent, which holds `S` where it held `d`;
      `S`'s old parent holds `S`'s right subtree in its place. */
  ghost predicate Done(z: Scene)
    reads *
  {
    Matches(Fact(z.S.node, z.S.data, z.L.node, if z.Deep() then z.R0.node else z.S.right, z.d.parent))
    && Matches(Fact(z.L.node, z.L.data, z.L.left, z.L.right, z.S.node))
    && (z.d.parent != null ==>
          Matches(Fact(z.P.node, z.P.data, if z.P.left == z.d.node then z.S.node else z.P.left,
                       if z.P.right == z.d.node then z.S.node else z.P.right, z.P.parent)))
    && (z.Deep() ==> Matches(Fact(z.Q.node, z.Q.data, z.S.right, z.Q.right, if z.Q.node == z.R0.node then z.S.node else z.Q.parent)))
    && (z.Deep() && z.R0.node != z.Q.node ==> Matches(Fact(z.R0.node, z.R0.data, z.R0.left, z.R0.right, z.S.node)))
    && (z.Deep() && z.S.right != null ==> Matches(Fact(z.RS.node, z.RS.data, z.RS.left, z.RS.right, z.Q.node)))
  }

  /** The new facts of the scene, one per node erase writes. */
  function NewFactsOf(z: Scene): set<Fact> {
    {Fact(z.S.node, z.S.data, z.L.node, if z.Deep() then z.R0.node else z.S.right, z.d.parent),
     Fact(z.L.node, z.L.data, z.L.left, z.L.right, z.S.node)}
    + (if z.d.parent != null
       then {Fact(z.P.node, z.P.data, if z.P.left == z.d.node then z.S.node else z.P.left,
                  if z.P.right == z.d.node then z.S.node else z.P.right, z.P.parent)}
       else {})
    + (if z.Deep() then {Fact(z.Q.node, z.Q.data, z.S.right, z.Q.right, if z.Q.node == z.R0.node then z.S.node else z.Q.parent)} else {})
    + (if z.Deep() && z.R0.node != z.Q.node then {Fact(z.R0.node, z.R0.data, z.R0.left, z.R0.right, z.S.node)} else {})
    + (if z.Deep() && z.S.right != null then {Fact(z.RS.node, z.RS.data, z.RS.left, z.RS.right, z.Q.node)} else {})
  }

  /** When the scene is done, its new facts hold. */
  lemma DoneHolds(z: Scene)
    requires Done(z)
    ensures Holds(NewFactsOf(z), NodesOf(NewFactsOf(z)))
  {
    HoldsNodesOf(NewFactsOf(z));
  }

  /** The new facts of the scene are the facts of the new tree about the nodes erase writes. */
  lemma SceneFacts(c: Ctx, s: Tree, c2: Ctx, s2: Tree)
    requires Distinct(Plug(c, s)) && Succession(s, c2, s2)
    ensures NewFactsOf(SceneOf(c, s, c2, s2)) == NewFacts(c, s, c2, s2)
  {
    SuccessorApart(c, s, c2, s2);
    if !c2.Top? {
      PlugRoot(c2, s2.right);
      OuterRoot(c2, s2.right, s2.node);
      if !c2.up.Top? {
        OuterRoot(c2.up, Br(c2.node, c2.data, s2, c2.right), s2.node);
      }
    }
  }

  /** Before erase rewrites the links, the heap holds the old facts of the scene. */
  lemma SuccessorLinks(c: Ctx, s: Tree, c2: Ctx, s2: Tree, R: set<Node>)
    requires Holds(Facts(Plug(c, s), null), R) && Succession(s, c2, s2)
    ensures Linked(SceneOf(c, s, c2, s2))
  {
    var d, S := s.node, s2.node;
    PlugFacts(c, s, null);
    RootFact(s, Above(c, null));
    RootFact(s.left, d);
    PlugFacts(c2, s2, d);
    RootFact(s2, Above(c2, d));
    if !c.Top? {
      CtxFactsHole(c, d, d, null);
    }
    RootFact(s.right, d);
    if !c2.Top? {
      CtxFactsHole(c2, S, S, d);
    }
    if s2.right.Br? {
      RootFact(s2.right, S);
    }
  }

  /** Before erase rewrites the links: the nodes the new facts are about are nodes of the
      tree, and the facts about all other nodes hold. */
  lemma SuccessorFrame(c: Ctx, s: Tree, c2: Ctx, s2: Tree, R: set<Node>)
    requires Distinct(Plug(c, s)) && Holds(Facts(Plug(c, s), null), R) && Nodes(Plug(c, s)) == R
    requires Succession(s, c2, s2)
    ensures RootOf(Plug(c2, s2.right)) == if c2.Top? then RootOf(s2.right) else s.right.node
    ensures NodesOf(NewFacts(c, s, c2, s2)) <= R - {s.node}
    ensures HoldsOutside(Facts(Plug(c, s), null), R, NodesOf(NewFacts(c, s, c2, s2)))
  {
    var F, E := Facts(Plug(c, s), null), NewFacts(c, s, c2, s2);
    if !c2.Top? {
      PlugRoot(c2, s2);
      PlugRoot(c2, s2.right);
    }
    SuccessorCovers(c, s, c2, s2);
    SpliceNodes(c, s);
    NodesOfSub(E, Plug(c, RemoveRoot(s)), null);
    HoldsOutsideOf(F, R, NodesOf(E));
  }

  /** The nodes the new facts are about. */
  lemma SuccessorNodes(c: Ctx, s: Tree, c2: Ctx, s2: Tree)
    requires Succession(s, c2, s2)
    ensures s2.node in NodesOf(NewFacts(c, s, c2, s2)) && s.left.node in NodesOf(NewFacts(c, s, c2, s2))
    ensures !c.Top? ==> c.node in NodesOf(NewFacts(c, s, c2, s2))
    ensures !c2.Top? ==> c2.node in NodesOf(NewFacts(c, s, c2, s2)) && s.right.node in NodesOf(NewFacts(c, s, c2, s2))
    ensures !c2.Top? && s2.right.Br? ==> s2.right.node in NodesOf(NewFacts(c, s, c2, s2))
  {
    var E, S := NewFacts(c, s, c2, s2), s2.node;
    var r' := Plug(c2, s2.right);
    assert Fact(S, s2.data, RootOf(s.left), RootOf(r'), Above(c, null)) in E;
    assert Fact(s.left.node, s.left.data, RootOf(s.left.left), RootOf(s.left.right), S) in E;
    if !c.Top? {
      var e :| e in InnerFacts(c, S, null);
      assert e in E;
    }
    if !c2.Top? {
      PlugRoot(c2, s2);
      PlugRoot(c2, s2.right);
      assert Fact(c2.node, c2.data, RootOf(s2.right), RootOf(c2.right), Above(c2.up, S)) in E;
      assert r'.Br? && Fact(r'.node, r'.data, RootOf(r'.left), RootOf(r'.right), S) in E;
      if s2.right.Br? {
        assert Fact(s2.right.node, s2.right.data, RootOf(s2.right.left), RootOf(s2.right.right), c2.node) in E;
      }
    }
  }

  /** The nodes erase writes are distinct from each other and from the erased node, except
      that the successor's old parent is the root of the right subtree when the successor is
      its left child. */
  lemma SuccessorApart(c: Ctx, s: Tree, c2: Ctx, s2: Tree)
    requires Distinct(Plug(c, s)) && Succession(s, c2, s2)
    ensures s2.node != s.node && s2.node != s.left.node && s.left.node != s.node
    ensures c.InL? ==> RootOf(c.right) != s.node
    ensures c.InR? ==> RootOf(c.left) != s.node
    ensures Above(c, null) != null ==> Above(c, null) != s2.node && Above(c, null) != s.left.node && Above(c, null) != s.node
    ensures s2.right.Br? ==> s2.right.node != s2.node && s2.right.node != s.node && s2.right.node != s.left.node && s2.right.node != Above(c, null)
    ensures !c2.Top? ==> c2.node != s2.node && c2.node != s.node && c2.node != s.left.node && c2.node != Above(c, null)
    ensures !c2.Top? && s2.right.Br? ==> s2.right.node != c2.node && s2.right.node != s.right.node
    ensures !c2.Top? ==> s.right.node != s2.node && s.right.node != s.node && s.right.node != s.left.node && s.right.node != Above(c, null)
    ensures !c2.Top? ==> (c2.up.Top? <==> s.right.node == c2.node)
    ensures c2.Top? ==> s.right.node == s2.node
  {
    PlugDistinct(c, s);
    assert s.node in Nodes(s);
    PlugNodes(c2, s2);
    PlugDistinct(c2, s2);
    assert s.left.node in Nodes(s.left);
    assert s2.node in Nodes(s2);
    if s2.right.Br? {
      assert s2.right.node in Nodes(s2.right);
    }
    if !c2.Top? {
      PlugRoot(c2, s2);
      var x := Br(c2.node, c2.data, s2, c2.right);
      if !c2.up.Top? {
        PlugRoot(c2.up, x);
        PlugDistinct(c2.up, x);
        assert c2.node in Nodes(x);
      }
    }
  }

  /** After erase has rewritten the links, the facts of the tree with the successor in the
      erased node's place hold. */
  lemma SuccessorAfter(c: Ctx, s: Tree, c2: Ctx, s2: Tree, R: set<Node>)
    requires Distinct(Plug(c, s)) && Nodes(Plug(c, s)) == R && Succession(s, c2, s2)
    requires HoldsOutside(Facts(Plug(c, s), null), R, NodesOf(NewFacts(c, s, c2, s2)))
    requires Holds(NewFacts(c, s, c2, s2), NodesOf(NewFacts(c, s, c2, s2)))
    ensures Holds(Facts(Plug(c, RemoveRoot(s)), null), R)
  {
    var F, G, E := Facts(Plug(c, s), null), Facts(Plug(c, RemoveRoot(s)), null), NewFacts(c, s, c2, s2);
    SuccessorCovers(c, s, c2, s2);
    Reestablish(F, R, NodesOf(E), G, E, NodesOf(E));
    SpliceNodes(c, s);
    FactsAbout(Plug(c, RemoveRoot(s)), null);
    HoldsSub(G, G, R + NodesOf(E), R);
  }

  /** The scene's nodes hang together as the tree says. */
  lemma SceneShaped(c: Ctx, s: Tree, c2: Ctx, s2: Tree)
    requires Distinct(Plug(c, s)) && Succession(s, c2, s2)
    ensures Shaped(SceneOf(c, s, c2, s2))
  {
    SuccessorApart(c, s, c2, s2);
  }

  /** The nodes erase writes are those of the new facts, all of them in the tree but `d`,
      and the facts about the other nodes hold. */
  lemma SceneFramed(c: Ctx, s: Tree, c2: Ctx, s2: Tree, R: set<Node>)
    requires Distinct(Plug(c, s)) && Holds(Facts(Plug(c, s), null), R) && Nodes(Plug(c, s)) == R
    requires Succession(s, c2, s2)
    ensures NodesOf(NewFacts(c, s, c2, s2)) <= R
    ensures Framed(SceneOf(c, s, c2, s2), NodesOf(NewFacts(c, s, c2, s2)))
    ensures HoldsOutside(Facts(Plug(c, s), null), R, NodesOf(NewFacts(c, s, c2, s2)))
  {
    SuccessorFrame(c, s, c2, s2, R);
    SuccessorNodes(c, s, c2, s2);
    SuccessorApart(c, s, c2, s2);
  }
}
