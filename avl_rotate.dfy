/** The rotation primitives and the two rebalance procedures of the AVL
    engine, on subtree values. As in the engine, the balance procedures set
    the tags first and then rotate; the rotations never touch a tag. */
module AvlRotate {
  import opened AvlModel

  /** rotate_left: the former right child becomes the subtree root and the
      former root its left child, taking over the child's left subtree. */
  function RotateLeft(t: Tree): (r: Tree)
    requires t.Node? && t.right.Node?
    ensures r.Node? && r.left.Node?
    ensures r.data == t.right.data && r.left.data == t.data
    ensures r.left.left == t.left && r.left.right == t.right.left && r.right == t.right.right
    ensures r.bal == t.right.bal && r.left.bal == t.bal
    ensures InOrder(r) == InOrder(t)
  {
    var c := t.right;
    Node(c.data, Node(t.data, t.left, c.left, t.bal), c.right, c.bal)
  }

  /** rotate_right: the mirror image of RotateLeft. */
  function RotateRight(t: Tree): (r: Tree)
    requires t.Node? && t.left.Node?
    ensures r.Node? && r.right.Node?
    ensures r.data == t.left.data && r.right.data == t.data
    ensures r.right.right == t.right && r.right.left == t.left.right && r.left == t.left.left
    ensures r.bal == t.left.bal && r.right.bal == t.bal
    ensures InOrder(r) == InOrder(t)
  {
    var c := t.left;
    Node(c.data, c.left, Node(t.data, c.right, t.right, t.bal), c.bal)
  }

  /** rotate_right undoes rotate_left, and the other way round. */
  lemma RotationsInverse(t: Tree)
    ensures t.Node? && t.right.Node? ==> RotateRight(RotateLeft(t)) == t
    ensures t.Node? && t.left.Node? ==> RotateLeft(RotateRight(t)) == t
  {
  }

  /** A rotation keeps the key set and the BST order, since it keeps the
      in-order sequence. */
  lemma RotationKeepsSearchOrder(t: Tree)
    requires t.Node? && t.right.Node?
    ensures Keys(RotateLeft(t)) == Keys(t)
    ensures Ordered(RotateLeft(t)) <==> Ordered(t)
  {
    SameInOrder(t, RotateLeft(t));
  }

  /** The mirror image of RotationKeepsSearchOrder, for rotate_right. */
  lemma RightRotationKeepsSearchOrder(t: Tree)
    requires t.Node? && t.left.Node?
    ensures Keys(RotateRight(t)) == Keys(t)
    ensures Ordered(RotateRight(t)) <==> Ordered(t)
  {
    SameInOrder(t, RotateRight(t));
  }

  /** The tags right_balance's double rotation gives the former root (first)
      and the former right child (second), chosen by the grandchild's tag. */
  function RightDoubleTags(g: Balance): (Balance, Balance) {
    match g
    case EqualHeight => (EqualHeight, EqualHeight)
    case LeftHigher => (EqualHeight, RightHigher)
    case RightHigher => (LeftHigher, EqualHeight)
  }

  /** The tags left_balance's double rotation gives the former root (first)
      and the former left child (second), chosen by the grandchild's tag. */
  function LeftDoubleTags(g: Balance): (Balance, Balance) {
    match g
    case EqualHeight => (EqualHeight, EqualHeight)
    case RightHigher => (EqualHeight, LeftHigher)
    case LeftHigher => (RightHigher, EqualHeight)
  }

  /** right_balance: t is two levels heavier on the right (its own tag is
      stale). The result is balanced with correct tags and the same keys in
      the same order; the flag says whether the height dropped by one, which
      happens exactly when the right child was not equal_height. */
  function RightBalance(t: Tree): (r: (Tree, bool))
    requires t.Node? && Balanced(t.left) && Balanced(t.right)
    requires Height(t.right) == Height(t.left) + 2
    ensures Balanced(r.0)
    ensures InOrder(r.0) == InOrder(t)
    ensures r.1 <==> t.right.bal != EqualHeight
    ensures Height(r.0) == Height(t) - (if r.1 then 1 else 0)
    ensures r.0.Node? && r.0.bal == (if r.1 then EqualHeight else LeftHigher)
  {
    var c := t.right;
    match c.bal
    case RightHigher =>
      (RotateLeft(t.(bal := EqualHeight, right := c.(bal := EqualHeight))), true)
    case EqualHeight =>
      (RotateLeft(t.(bal := RightHigher, right := c.(bal := LeftHigher))), false)
    case LeftHigher =>
      var g := c.left;
      var tags := RightDoubleTags(g.bal);
      var c' := RotateRight(c.(bal := tags.1, left := g.(bal := EqualHeight)));
      var r := RotateLeft(t.(bal := tags.0, right := c'));
      DoubleRotationRight(t, c', r);
      (r, true)
  }

  /** left_balance: the mirror image of RightBalance. */
  function LeftBalance(t: Tree): (r: (Tree, bool))
    requires t.Node? && Balanced(t.left) && Balanced(t.right)
    requires Height(t.left) == Height(t.right) + 2
    ensures Balanced(r.0)
    ensures InOrder(r.0) == InOrder(t)
    ensures r.1 <==> t.left.bal != EqualHeight
    ensures Height(r.0) == Height(t) - (if r.1 then 1 else 0)
    ensures r.0.Node? && r.0.bal == (if r.1 then EqualHeight else RightHigher)
  {
    var c := t.left;
    match c.bal
    case LeftHigher =>
      (RotateRight(t.(bal := EqualHeight, left := c.(bal := EqualHeight))), true)
    case EqualHeight =>
      (RotateRight(t.(bal := LeftHigher, left := c.(bal := RightHigher))), false)
    case RightHigher =>
      var g := c.right;
      var tags := LeftDoubleTags(g.bal);
      var c' := RotateLeft(c.(bal := tags.1, right := g.(bal := EqualHeight)));
      var r := RotateRight(t.(bal := tags.0, left := c'));
      DoubleRotationLeft(t, c', r);
      (r, true)
  }

  /** The double rotation of right_balance, once the right child has been
      rotated right: balanced, the same in-order keys, one level lower. */
  lemma DoubleRotationRight(t: Tree, c': Tree, r: Tree)
    requires t.Node? && Balanced(t.left) && Balanced(t.right)
    requires Height(t.right) == Height(t.left) + 2
    requires t.right.bal == LeftHigher
    requires c' == RotateRight(t.right.(bal := RightDoubleTags(t.right.left.bal).1,
                                        left := t.right.left.(bal := EqualHeight)))
    requires r == RotateLeft(t.(bal := RightDoubleTags(t.right.left.bal).0, right := c'))
    ensures Balanced(r) && InOrder(r) == InOrder(t) && Height(r) == Height(t) - 1
  {
    var c := t.right;
    var g := c.left;
    DoubleRotationRightShape(t, c', r);
    DoubleRotationRightInOrder(t, c', r);
    assert Balanced(g) && Height(g) == Height(t.left) + 1 && Height(c.right) == Height(t.left);
    RightDoubleTable(t.data, g.data, c.data, t.left, g.left, g.right, c.right, g.bal);
  }

  /** The two rotations of right_balance's double case, node by node. */
  lemma DoubleRotationRightShape(t: Tree, c': Tree, r: Tree)
    requires t.Node? && t.right.Node? && t.right.left.Node?
    requires c' == RotateRight(t.right.(bal := RightDoubleTags(t.right.left.bal).1,
                                        left := t.right.left.(bal := EqualHeight)))
    requires r == RotateLeft(t.(bal := RightDoubleTags(t.right.left.bal).0, right := c'))
    ensures r == Node(t.right.left.data,
                      Node(t.data, t.left, t.right.left.left, RightDoubleTags(t.right.left.bal).0),
                      Node(t.right.data, t.right.left.right, t.right.right, RightDoubleTags(t.right.left.bal).1),
                      EqualHeight)
  {
    var c, g := t.right, t.right.left;
    assert c' == Node(g.data, g.left, Node(c.data, g.right, c.right, RightDoubleTags(g.bal).1), EqualHeight);
  }

  /** The two rotations of right_balance's double case keep the in-order
      sequence, whatever tags they carry. */
  lemma DoubleRotationRightInOrder(t: Tree, c': Tree, r: Tree)
    requires t.Node? && t.right.Node? && t.right.left.Node?
    requires c' == RotateRight(t.right.(bal := RightDoubleTags(t.right.left.bal).1,
                                        left := t.right.left.(bal := EqualHeight)))
    requires r == RotateLeft(t.(bal := RightDoubleTags(t.right.left.bal).0, right := c'))
    ensures InOrder(r) == InOrder(t)
  {
    var c, g := t.right, t.right.left;
    assert InOrder(g.(bal := EqualHeight)) == InOrder(g);
    assert InOrder(c') == InOrder(c);
  }

  /** What right_balance builds when the right child is left_higher: the
      grandchild becomes the subtree root with an equal_height tag, the
      former root its left child and the former right child its right
      child, tagged by the three-way table. */
  lemma RightBalanceDoubleShape(t: Tree)
    requires t.Node? && Balanced(t.left) && Balanced(t.right)
    requires Height(t.right) == Height(t.left) + 2
    requires t.right.bal == LeftHigher
    ensures t.right.left.Node?
    ensures RightBalance(t).0 ==
            Node(t.right.left.data,
                 Node(t.data, t.left, t.right.left.left, RightDoubleTags(t.right.left.bal).0),
                 Node(t.right.data, t.right.left.right, t.right.right, RightDoubleTags(t.right.left.bal).1),
                 EqualHeight)
  {
    var c := t.right;
    var g := c.left;
    var tags := RightDoubleTags(g.bal);
    var c' := RotateRight(c.(bal := tags.1, left := g.(bal := EqualHeight)));
    var r := RotateLeft(t.(bal := tags.0, right := c'));
    assert RightBalance(t).0 == r;
    DoubleRotationRightShape(t, c', r);
  }

  /** The three-way tag table of right_balance's double rotation is right:
      whatever the grandchild's tag, the rebuilt subtree (grandchild on top
      with an equal_height tag, former root on the left, former child on the
      right) is balanced, its tags are correct, and it is one level lower
      than before. */
  lemma RightDoubleTable(x: int, y: int, z: int, t1: Tree, t2: Tree, t3: Tree, t4: Tree, gb: Balance)
    requires Balanced(t1) && Balanced(Node(y, t2, t3, gb)) && Balanced(t4)
    requires Height(t4) == Height(t1) && Height(Node(y, t2, t3, gb)) == Height(t1) + 1
    ensures Balanced(Node(y, Node(x, t1, t2, RightDoubleTags(gb).0),
                          Node(z, t3, t4, RightDoubleTags(gb).1), EqualHeight))
    ensures Height(Node(y, Node(x, t1, t2, RightDoubleTags(gb).0),
                        Node(z, t3, t4, RightDoubleTags(gb).1), EqualHeight)) == Height(t1) + 2
  {
  }

  /** The mirror image of DoubleRotationRight, for left_balance. */
  lemma DoubleRotationLeft(t: Tree, c': Tree, r: Tree)
    requires t.Node? && Balanced(t.left) && Balanced(t.right)
    requires Height(t.left) == Height(t.right) + 2
    requires t.left.bal == RightHigher
    requires c' == RotateLeft(t.left.(bal := LeftDoubleTags(t.left.right.bal).1,
                                      right := t.left.right.(bal := EqualHeight)))
    requires r == RotateRight(t.(bal := LeftDoubleTags(t.left.right.bal).0, left := c'))
    ensures Balanced(r) && InOrder(r) == InOrder(t) && Height(r) == Height(t) - 1
  {
    var c := t.left;
    var g := c.right;
    DoubleRotationLeftShape(t, c', r);
    DoubleRotationLeftInOrder(t, c', r);
    assert Balanced(g) && Height(g) == Height(t.right) + 1 && Height(c.left) == Height(t.right);
    LeftDoubleTable(t.data, g.data, c.data, c.left, g.left, g.right, t.right, g.bal);
  }

  /** The mirror image of DoubleRotationRightShape. */
  lemma DoubleRotationLeftShape(t: Tree, c': Tree, r: Tree)
    requires t.Node? && t.left.Node? && t.left.right.Node?
    requires c' == RotateLeft(t.left.(bal := LeftDoubleTags(t.left.right.bal).1,
                                      right := t.left.right.(bal := EqualHeight)))
    requires r == RotateRight(t.(bal := LeftDoubleTags(t.left.right.bal).0, left := c'))
    ensures r == Node(t.left.right.data,
                      Node(t.left.data, t.left.left, t.left.right.left, LeftDoubleTags(t.left.right.bal).1),
                      Node(t.data, t.left.right.right, t.right, LeftDoubleTags(t.left.right.bal).0),
                      EqualHeight)
  {
    var c, g := t.left, t.left.right;
    assert c' == Node(g.data, Node(c.data, c.left, g.left, LeftDoubleTags(g.bal).1), g.right, EqualHeight);
  }

  /** The mirror image of DoubleRotationRightInOrder. */
  lemma DoubleRotationLeftInOrder(t: Tree, c': Tree, r: Tree)
    requires t.Node? && t.left.Node? && t.left.right.Node?
    requires c' == RotateLeft(t.left.(bal := LeftDoubleTags(t.left.right.bal).1,
                                      right := t.left.right.(bal := EqualHeight)))
    requires r == RotateRight(t.(bal := LeftDoubleTags(t.left.right.bal).0, left := c'))
    ensures InOrder(r) == InOrder(t)
  {
    var c, g := t.left, t.left.right;
    assert InOrder(g.(bal := EqualHeight)) == InOrder(g);
    assert InOrder(c') == InOrder(c);
  }

  /** The mirror image of RightBalanceDoubleShape: when the left child is
      right_higher, the grandchild becomes the subtree root, the former left
      child its left child and the former root its right child. */
  lemma LeftBalanceDoubleShape(t: Tree)
    requires t.Node? && Balanced(t.left) && Balanced(t.right)
    requires Height(t.left) == Height(t.right) + 2
    requires t.left.bal == RightHigher
    ensures t.left.right.Node?
    ensures LeftBalance(t).0 ==
            Node(t.left.right.data,
                 Node(t.left.data, t.left.left, t.left.right.left, LeftDoubleTags(t.left.right.bal).1),
                 Node(t.data, t.left.right.right, t.right, LeftDoubleTags(t.left.right.bal).0),
                 EqualHeight)
  {
    var c := t.left;
    var g := c.right;
    var tags := LeftDoubleTags(g.bal);
    var c' := RotateLeft(c.(bal := tags.1, right := g.(bal := EqualHeight)));
    var r := RotateRight(t.(bal := tags.0, left := c'));
    assert LeftBalance(t).0 == r;
    DoubleRotationLeftShape(t, c', r);
  }

  /** The three-way tag table of left_balance's double rotation, the mirror
      image of RightDoubleTable: former child on the left, former root on
      the right. */
  lemma LeftDoubleTable(x: int, y: int, z: int, t1: Tree, t2: Tree, t3: Tree, t4: Tree, gb: Balance)
    requires Balanced(t1) && Balanced(Node(y, t2, t3, gb)) && Balanced(t4)
    requires Height(t1) == Height(t4) && Height(Node(y, t2, t3, gb)) == Height(t4) + 1
    ensures Balanced(Node(y, Node(z, t1, t2, LeftDoubleTags(gb).1),
                          Node(x, t3, t4, LeftDoubleTags(gb).0), EqualHeight))
    ensures Height(Node(y, Node(z, t1, t2, LeftDoubleTags(gb).1),
                        Node(x, t3, t4, LeftDoubleTags(gb).0), EqualHeight)) == Height(t4) + 2
  {
  }
}
