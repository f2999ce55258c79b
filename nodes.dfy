/** The node of the binary search tree (BST<T>::BNode), with `int` elements.
    The red/black flag (isRed) of BST<T>::BNode is never read by any algorithm and is not modelled. */
module TreeNode {

  class Node {
    var data: int
    var left: Node?    // left child: smaller elements
    var right: Node?   // right child: larger or equal elements
    var parent: Node?  // non-owning back link

    /** A detached node holding `t`. */
    constructor (t: int)
      ensures data == t && left == null && right == null && parent == null
    {
      data := t;
      left := null;
      right := null;
      parent := null;
    }

    /** Hang `n` (possibly null) as the left child and point it back here. */
    method AddLeft(n: Node?)
      requires n != this
      modifies this, n
      ensures left == n && right == old(right) && data == old(data) && parent == old(parent)
      ensures n != null ==> n.parent == this && n.data == old(n.data)
      ensures n != null ==> n.left == old(n.left) && n.right == old(n.right)
    {
      left := n;
      if n != null {
        n.parent := this;
      }
    }

    /** Hang `n` (possibly null) as the right child and point it back here. */
    method AddRight(n: Node?)
      requires n != this
      modifies this, n
      ensures right == n && left == old(left) && data == old(data) && parent == old(parent)
      ensures n != null ==> n.parent == this && n.data == old(n.data)
      ensures n != null ==> n.left == old(n.left) && n.right == old(n.right)
    {
      right := n;
      if n != null {
        n.parent := this;
      }
    }

    /** Allocate a node holding `t` and hang it as the left child. */
    method AddLeftValue(t: int)
      modifies this
      ensures left != null && fresh(left)
      ensures left.data == t && left.left == null && left.right == null && left.parent == this
      ensures right == old(right) && data == old(data) && parent == old(parent)
    {
      var n := new Node(t);
      AddLeft(n);
    }

    /** Allocate a node holding `t` and hang it as the right child
        (the attachment the value overloads are meant to make). */
    method AddRightValue(t: int)
      modifies this
      ensures right != null && fresh(right)
      ensures right.data == t && right.left == null && right.right == null && right.parent == this
      ensures left == old(left) && data == old(data) && parent == old(parent)
    {
      var n := new Node(t);
      AddRight(n);
    }
  }
}
