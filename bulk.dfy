/** The whole-tree operations behind clear and copy-assignment: deleteBinaryTree, which
    releases a subtree in post-order, and copyBinaryTree, which makes a subtree a copy of
    another one, reusing the destination's nodes where it has them. Both take the subtree
    by a reference to its root pointer and reset that pointer; here the callee returns the
    new root (or nothing, for delete, whose new root is always null) and the caller writes it. */
module Bulk {
  import opened TreeNode
  import opened Shapes
  import opened Links

  /** The subtree `u` is linked up: every child link agrees with its back link, whatever
      the parent link of its root is. */
  ghost predicate Built(u: Tree)
    reads Nodes(u)
  {
    u.Br? ==> Holds(Facts(u, u.node.parent), Nodes(u))
  }

  /** Every node of `N` has lost both child links (the nodes deleteBinaryTree releases). */
  ghost predicate Cleared(N: set<Node>)
    reads N
  {
    forall m | m in N :: m.left == null && m.right == null
  }

  /** The facts of a tree hanging below `p` say it is linked up. */
  lemma BuiltOf(u: Tree, p: Node?, R: set<Node>)
    requires Holds(Facts(u, p), R) && Nodes(u) <= R
    ensures Built(u)
  {
    if u.Br? {
      RootLinks(u, p, Facts(u, p), R);
      FactsAbout(u, p);
      HoldsSub(Facts(u, p), Facts(u, p), R, Nodes(u));
    }
  }

  /** The root of a linked-up subtree holds its element and links to its subtrees, which are
      linked up themselves. */
  lemma BuiltChildren(u: Tree)
    requires u.Br? && Distinct(u) && Built(u)
    ensures u.node.data == u.data && u.node.left == RootOf(u.left) && u.node.right == RootOf(u.right)
    ensures Built(u.left) && Built(u.right)
  {
    var F := Facts(u, u.node.parent);
    RootLinks(u, u.node.parent, F, Nodes(u));
    if u.left.Br? {
      RootLinks(u.left, u.node, F, Nodes(u));
    }
    if u.right.Br? {
      RootLinks(u.right, u.node, F, Nodes(u));
    }
    BuiltOf(u.left, u.node, Nodes(u));
    BuiltOf(u.right, u.node, Nodes(u));
  }

  /** Once the root of a linked-up subtree `u` points back to `p`, `u` hangs below `p`. */
  lemma Reparented(u: Tree, q: Node?, p: Node?)
    requires u.Br? && Distinct(u) && HoldsOutside(Facts(u, q), Nodes(u), {u.node})
    requires Matches(Fact(u.node, u.data, RootOf(u.left), RootOf(u.right), p))
    ensures Holds(Facts(u, p), Nodes(u))
  {
    FactsReparent(u, q, p);
    var E := RootFacts(u, p);
    forall f | f in Facts(u, p) && f.node in {u.node}
      ensures f in E
    {
      FactOf(u, p, f, Fact(u.node, u.data, RootOf(u.left), RootOf(u.right), p));
    }
    Reestablish(Facts(u, q), Nodes(u), {u.node}, Facts(u, p), E, {u.node});
  }

  /** The subtree `u`, without repeated nodes, hangs below `p`, which is none of its nodes. */
  ghost predicate HangsBelow(p: Node, u: Tree)
    reads Nodes(u)
  {
    Distinct(u) && p !in Nodes(u) && Holds(Facts(u, p), Nodes(u))
  }

  /** A tree built from a root and two disjoint subtrees hanging below it is tidy. */
  lemma Joined(u: Tree)
    requires u.Br? && Matches(Fact(u.node, u.data, RootOf(u.left), RootOf(u.right), u.node.parent))
    requires HangsBelow(u.node, u.left) && HangsBelow(u.node, u.right) && Nodes(u.left) !! Nodes(u.right)
    ensures Tidy(u)
  {
  }

  /** Two trees with the same shape and elements have the same size, in-order elements and
      search-tree order, whatever their nodes. */
  lemma {:induction false} SameShape(a: Tree, b: Tree)
    requires Shape(a) == Shape(b)
    ensures Count(a) == Count(b) && Keys(a) == Keys(b) && Values(a) == Values(b)
    ensures Ordered(a) <==> Ordered(b)
  {
    match a
    case Nil =>
    case Br(_, _, l, r) =>
      SameShape(l, b.left);
      SameShape(r, b.right);
  }

  /** deleteBinaryTree(n): release the left subtree, then the right one, then `n` itself; each
      released subtree's root pointer is reset, so every node of `u` loses its child links. */
  method DeleteBinaryTree(n: Node?, ghost u: Tree)
    requires RootOf(u) == n && Distinct(u) && Built(u)
    modifies Nodes(u)
    ensures Cleared(Nodes(u))
    decreases u
  {
    if n == null {
      return;
    }
    BuiltChildren(u);
    assert n !in Nodes(u.left) + Nodes(u.right) && Nodes(u.left) !! Nodes(u.right);
    assert allocated(Nodes(u.left)) && allocated(Nodes(u.right));
    DeleteBinaryTree(n.left, u.left);
    n.left := null;
    DeleteBinaryTree(n.right, u.right);
    n.right := null;
  }

  /** A linked-up subtree without repeated nodes. */
  ghost predicate Tidy(u: Tree)
    reads Nodes(u)
  {
    Distinct(u) && Built(u)
  }

  /** copyBinaryTree may copy the subtree `su` at `src` onto the subtree `du` at `dest`:
      both are tidy and they share no node. */
  ghost predicate Ready(src: Node?, su: Tree, dest: Node?, du: Tree)
    reads Nodes(su), Nodes(du)
  {
    RootOf(su) == src && RootOf(du) == dest && Tidy(su) && Tidy(du) && Nodes(su) !! Nodes(du)
  }

  /** `nu`, rooted at `nd`, is a tidy copy of `su`. */
  ghost predicate Copied(nd: Node?, nu: Tree, su: Tree)
    reads Nodes(nu)
  {
    RootOf(nu) == nd && Shape(nu) == Shape(su) && Tidy(nu)
  }

  /** The subtrees of `src` (the root of `su`) may be copied onto `dl` and `dr`, the subtrees
      at `l` and `r`. */
  ghost predicate Under(l: Node?, r: Node?, src: Node, su: Tree, dl: Tree, dr: Tree)
    reads Nodes(su), Nodes(dl), Nodes(dr)
  {
    su.Br? && su.node == src &&
    Ready(src.left, su.left, l, dl) && Ready(src.right, su.right, r, dr) &&
    Nodes(dl) !! Nodes(dr) && Nodes(su) !! Nodes(dl) + Nodes(dr)
  }

  /** After the root of the copy `nd` holds the element of `su`'s root `src`, its subtrees may
      be copied onto `dl` and `dr`, the subtrees below `nd`. */
  ghost predicate Below(nd: Node, src: Node, su: Tree, dl: Tree, dr: Tree)
    reads nd, Nodes(su), Nodes(dl), Nodes(dr)
  {
    su.Br? && nd.data == su.data && nd !in Nodes(su) + Nodes(dl) + Nodes(dr) &&
    Under(nd.left, nd.right, src, su, dl, dr)
  }

  /** What copyBinaryTree knows below a non-null source root when it allocates the copy's root. */
  lemma ReadyFresh(src: Node, su: Tree)
    requires Ready(src, su, null, Nil)
    ensures su.Br? && src.data == su.data && Under(null, null, src, su, Nil, Nil)
  {
    BuiltChildren(su);
  }

  /** What copyBinaryTree knows below a non-null source root when it reuses the root `dest`. */
  lemma ReadyReused(src: Node, su: Tree, dest: Node, du: Tree)
    requires Ready(src, su, dest, du)
    ensures su.Br? && src.data == su.data && du.Br? && dest !in Nodes(su) + Nodes(du.left) + Nodes(du.right)
    ensures Under(dest.left, dest.right, src, su, du.left, du.right)
  {
    BuiltChildren(su);
    BuiltChildren(du);
  }

  /** copyBinaryTree(src, dest): make the subtree at `dest` (the linked-up tree `du`) a copy of
      the subtree at `src` (the linked-up tree `su`), and return its new root `nd`. With no
      source the destination is deleted; otherwise the destination's root is reused (its
      element overwritten) or, when there is none, allocated, and the two subtrees are copied
      onto the destination's subtrees. The nodes it allocates are none of the existing `avoid`. */
  method CopyBinaryTree(src: Node?, ghost su: Tree, dest: Node?, ghost du: Tree, ghost avoid: set<Node>)
    returns (nd: Node?, ghost nu: Tree)
    requires Ready(src, su, dest, du)
    modifies Nodes(du)
    ensures Copied(nd, nu, su) && Nodes(nu) - Nodes(du) !! avoid
    ensures src != null && dest != null ==> nd == dest && nd.parent == old(dest.parent)
    ensures src != null && dest == null ==> nd != null && fresh(nd) && nd.parent == null
    ensures src == null ==> nd == null && Cleared(Nodes(du))
    decreases su, 3
  {
    if src == null {
      DeleteBinaryTree(dest, du);
      return null, Nil;
    }
    if dest == null {
      nd, nu := CopyFresh(src, su, avoid);
    } else {
      nu := CopyOnto(src, su, dest, du, avoid);
      nd := dest;
    }
  }

  /** copyBinaryTree onto an empty destination: a new root holding the source root's element. */
  method CopyFresh(src: Node, ghost su: Tree, ghost avoid: set<Node>) returns (nd: Node, ghost nu: Tree)
    requires Ready(src, su, null, Nil)
    ensures Copied(nd, nu, su) && Nodes(nu) !! avoid && fresh(nd) && nd.parent == null
    decreases su, 2
  {
    ReadyFresh(src, su);
    assert allocated(Nodes(su));
    nd := new Node(src.data);
    nu := CopyChildren(nd, src, su, Nil, Nil, avoid);
  }

  /** copyBinaryTree onto the destination root `dest`: it takes the source root's element. */
  method CopyOnto(src: Node, ghost su: Tree, dest: Node, ghost du: Tree, ghost avoid: set<Node>) returns (ghost nu: Tree)
    requires Ready(src, su, dest, du)
    modifies Nodes(du)
    ensures Copied(dest, nu, su) && Nodes(nu) - Nodes(du) !! avoid && dest.parent == old(dest.parent)
    decreases su, 2
  {
    ReadyReused(src, su, dest, du);
    dest.data := src.data;
    nu := CopyChildren(dest, src, su, du.left, du.right, avoid);
  }

  /** The two recursive steps of copyBinaryTree below the copy's root `nd`: each subtree of
      `src` is copied onto the matching subtree of `nd`, which then links to the copy. The
      links of `nd` are written once both copies are made; neither copy reads or writes `nd`. */
  method CopyChildren(nd: Node, src: Node, ghost su: Tree, ghost dl: Tree, ghost dr: Tree, ghost avoid: set<Node>)
    returns (ghost nu: Tree)
    requires Below(nd, src, su, dl, dr)
    modifies nd, Nodes(dl), Nodes(dr)
    ensures Copied(nd, nu, su) && Nodes(nu) - Nodes(dl) - Nodes(dr) - {nd} !! avoid
    ensures nd.parent == old(nd.parent)
    decreases su, 1
  {
    assert allocated(Nodes(su)) && allocated(Nodes(dr));
    var l, lu := CopyChild(src.left, su.left, nd.left, dl, nd, avoid + Nodes(dr));
    assert Nodes(lu) !! Nodes(dr) && allocated(Nodes(lu));
    nu := CopyRight(nd, src, su, l, lu, dr, avoid);
  }

  /** After the left copy `lu`: the copy of the right subtree, and the links of `nd`. */
  method CopyRight(nd: Node, src: Node, ghost su: Tree, l: Node?, ghost lu: Tree, ghost dr: Tree, ghost avoid: set<Node>)
    returns (ghost nu: Tree)
    requires su.Br? && su.node == src && nd.data == su.data && nd !in Nodes(dr) && Ready(src.right, su.right, nd.right, dr)
    requires RootOf(lu) == l && Shape(lu) == Shape(su.left) && HangsBelow(nd, lu) && Nodes(lu) !! Nodes(dr)
    modifies nd, Nodes(dr)
    ensures Copied(nd, nu, su) && Nodes(nu) - Nodes(lu) - Nodes(dr) - {nd} !! avoid
    ensures nd.parent == old(nd.parent)
    decreases su, 0
  {
    assert allocated(Nodes(lu));
    var r, ru := CopyChild(src.right, su.right, nd.right, dr, nd, avoid + Nodes(lu));
    assert Nodes(lu) !! Nodes(ru);
    nd.left, nd.right := l, r;
    nu := Br(nd, su.data, lu, ru);
    Joined(nu);
  }

  /** One side of copyBinaryTree: copy the subtree at `src` onto the subtree `du` at `dest`,
      a child of `p`, and point the copy's root back at `p`. */
  method CopyChild(src: Node?, ghost su: Tree, dest: Node?, ghost du: Tree, p: Node, ghost avoid: set<Node>)
    returns (c: Node?, ghost cu: Tree)
    requires Ready(src, su, dest, du) && p !in Nodes(du)
    modifies Nodes(du)
    ensures RootOf(cu) == c && Shape(cu) == Shape(su) && HangsBelow(p, cu) && Nodes(cu) - Nodes(du) !! avoid
    decreases su, 4
  {
    c, cu := CopyBinaryTree(src, su, dest, du, avoid + {p});
    if src != null {
      HoldsOutsideOf(Facts(cu, c.parent), Nodes(cu), {c});
      ghost var q := c.parent;
      BuiltChildren(cu);
      c.parent := p;
      Reparented(cu, q, p);
    }
  }
}
