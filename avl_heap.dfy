/** The AVL engine as it runs: nodes on the heap whose child links and
    balance tags are updated in place. A C++ `Binary_node<Record> *&` slot
    is a field or variable of the caller; every procedure returns the node
    that must now sit in that slot and the caller stores it, so the slot is
    rebound exactly where the engine rebinds it. Each procedure is proved to
    produce the subtree the value model computes from the old subtree. */
module AvlHeap {
  import opened AvlModel
  import R = AvlRotate

  class AvlNode {
    var data: int
    var left: AvlNode?
    var right: AvlNode?
    var bal: Balance
    ghost var Repr: set<object>

    /** The nodes reachable from here form a tree: each child owns its own
        nodes, disjoint from its sibling's and not containing its parent.
        Nothing here depends on the tags or keys, so writing them keeps it. */
    ghost predicate Valid()
      reads this, Repr
      decreases Repr
    {
      this in Repr &&
      (left != null ==>
        left in Repr && left.Repr <= Repr && this !in left.Repr && left.Valid()) &&
      (right != null ==>
        right in Repr && right.Repr <= Repr && this !in right.Repr && right.Valid()) &&
      (left != null && right != null ==> left.Repr !! right.Repr)
    }

    /** The subtree value rooted here. */
    ghost function Model(): (m: Tree)
      reads this, Repr
      requires Valid()
      ensures m.Node?
      decreases Repr
    {
      Tree.Node(data,
                if left == null then Empty else left.Model(),
                if right == null then Empty else right.Model(),
                bal)
    }

    /** new AVL_node(new_data): a leaf with an equal_height tag. */
    constructor (k: int)
      ensures Valid() && fresh(Repr)
      ensures Model() == Leaf(k)
    {
      data := k;
      left := null;
      right := null;
      bal := EqualHeight;
      Repr := {this};
    }
  }

  ghost function ReprOf(n: AvlNode?): set<object>
    reads n
  {
    if n == null then {} else n.Repr
  }

  ghost predicate ValidOf(n: AvlNode?)
    reads n, ReprOf(n)
  {
    n != null ==> n.Valid()
  }

  ghost function ModelOf(n: AvlNode?): Tree
    reads n, ReprOf(n)
    requires ValidOf(n)
  {
    if n == null then Empty else n.Model()
  }

  /** A node whose children are valid, disjoint subtrees not containing it
      and whose Repr is exactly itself plus theirs is a valid subtree, and its
      value is built from theirs. */
  lemma Join(n: AvlNode, a: AvlNode?, b: AvlNode?, ra: set<object>, rb: set<object>)
    requires n.left == a && n.right == b
    requires ValidOf(a) && ValidOf(b) && ReprOf(a) == ra && ReprOf(b) == rb
    requires n !in ra && n !in rb && ra !! rb
    requires n in n.Repr && ra <= n.Repr && rb <= n.Repr
    ensures n.Valid()
    ensures n.Model() == Tree.Node(n.data, ModelOf(a), ModelOf(b), n.bal)
  {
  }

  /** The converse of Join: what a valid node says about its children. */
  lemma Split(n: AvlNode)
    requires n.Valid()
    ensures ValidOf(n.left) && ValidOf(n.right)
    ensures n !in ReprOf(n.left) && n !in ReprOf(n.right) && ReprOf(n.left) !! ReprOf(n.right)
    ensures n in n.Repr && ReprOf(n.left) <= n.Repr && ReprOf(n.right) <= n.Repr
    ensures n.Model() == Tree.Node(n.data, ModelOf(n.left), ModelOf(n.right), n.bal)
  {
  }

  /** rotate_left on the slot holding n: the right child becomes the subtree
      root and n its left child; no tag is written. */
  method RotateLeft(n: AvlNode) returns (r: AvlNode)
    requires n.Valid() && n.right != null
    modifies n, n.right
    ensures r == old(n.right) && r.left == n && r.Valid() && r.Repr == old(n.Repr)
    ensures r.Model() == R.RotateLeft(old(n.Model()))
  {
    r := n.right;
    Split(n);
    Split(r);
    ghost var a, b, c := n.left, r.left, r.right;
    ghost var ra, rb, rc := ReprOf(a), ReprOf(b), ReprOf(c);
    ghost var all := n.Repr;
    n.right := r.left;
    r.left := n;
    n.Repr := {n} + ra + rb;
    r.Repr := all;
    assert ValidOf(a) && ReprOf(a) == ra && ModelOf(a) == old(ModelOf(a));
    assert ValidOf(b) && ReprOf(b) == rb && ModelOf(b) == old(ModelOf(b));
    assert ValidOf(c) && ReprOf(c) == rc && ModelOf(c) == old(ModelOf(c));
    Join(n, a, b, ra, rb);
    Join(r, n, c, n.Repr, rc);
  }

  /** rotate_right on the slot holding n: the mirror image of RotateLeft. */
  method RotateRight(n: AvlNode) returns (r: AvlNode)
    requires n.Valid() && n.left != null
    modifies n, n.left
    ensures r == old(n.left) && r.right == n && r.Valid() && r.Repr == old(n.Repr)
    ensures r.Model() == R.RotateRight(old(n.Model()))
  {
    r := n.left;
    Split(n);
    Split(r);
    ghost var a, b, c := r.left, r.right, n.right;
    ghost var ra, rb, rc := ReprOf(a), ReprOf(b), ReprOf(c);
    ghost var all := n.Repr;
    n.left := r.right;
    r.right := n;
    n.Repr := {n} + rb + rc;
    r.Repr := all;
    assert ValidOf(a) && ReprOf(a) == ra && ModelOf(a) == old(ModelOf(a));
    assert ValidOf(b) && ReprOf(b) == rb && ModelOf(b) == old(ModelOf(b));
    assert ValidOf(c) && ReprOf(c) == rc && ModelOf(c) == old(ModelOf(c));
    Join(n, b, c, rb, rc);
    Join(r, a, n, ra, n.Repr);
  }

  /** set_balance: only the tag changes. */
  method SetBal(n: AvlNode, b: Balance)
    requires n.Valid()
    modifies n
    ensures n.Valid() && n.Repr == old(n.Repr)
    ensures old(n.Model()).Node? && n.Model() == old(n.Model()).(bal := b)
  {
    Split(n);
    ghost var a, c := n.left, n.right;
    ghost var ra, rc := ReprOf(a), ReprOf(c);
    n.bal := b;
    assert ValidOf(a) && ReprOf(a) == ra && ModelOf(a) == old(ModelOf(a));
    assert ValidOf(c) && ReprOf(c) == rc && ModelOf(c) == old(ModelOf(c));
    Join(n, a, c, ra, rc);
  }

  /** n's key, tag and left link were not written, and the subtree in its
      right slot (possibly relinked) was changed within the old right
      footprint: n stays valid and its value follows the new right subtree. */
  twostate lemma RightChanged(n: AvlNode)
    requires old(n.Valid()) && old(n.right) != null && n.right != null
    requires n.data == old(n.data) && n.left == old(n.left) && n.bal == old(n.bal)
    requires n.Repr == old(n.Repr)
    requires n.right.Valid() && n.right.Repr == old(n.right.Repr)
    requires unchanged(old(ReprOf(n.left)))
    ensures n.Valid() && old(n.Model()).Node? && n.Model() == old(n.Model()).(right := n.right.Model())
  {
    assert old(n.Valid());
    assert ValidOf(n.left) && ReprOf(n.left) == old(ReprOf(n.left)) && ModelOf(n.left) == old(ModelOf(n.left));
    Join(n, n.left, n.right, ReprOf(n.left), n.right.Repr);
  }

  /** The mirror image of RightChanged. */
  twostate lemma LeftChanged(n: AvlNode)
    requires old(n.Valid()) && old(n.left) != null && n.left != null
    requires n.data == old(n.data) && n.right == old(n.right) && n.bal == old(n.bal)
    requires n.Repr == old(n.Repr)
    requires n.left.Valid() && n.left.Repr == old(n.left.Repr)
    requires unchanged(old(ReprOf(n.right)))
    ensures n.Valid() && old(n.Model()).Node? && n.Model() == old(n.Model()).(left := n.left.Model())
  {
    assert old(n.Valid());
    assert ValidOf(n.right) && ReprOf(n.right) == old(ReprOf(n.right)) && ModelOf(n.right) == old(ModelOf(n.right));
    Join(n, n.left, n.right, n.left.Repr, ReprOf(n.right));
  }

  /** `sub_root->data = ...`: only the key changes. */
  method SetData(n: AvlNode, k: int)
    requires n.Valid()
    modifies n
    ensures n.Valid() && n.Repr == old(n.Repr)
    ensures old(n.Model()).Node? && n.Model() == old(n.Model()).(data := k)
  {
    Split(n);
    ghost var a, c := n.left, n.right;
    ghost var ra, rc := ReprOf(a), ReprOf(c);
    n.data := k;
    assert ValidOf(a) && ReprOf(a) == ra && ModelOf(a) == old(ModelOf(a));
    assert ValidOf(c) && ReprOf(c) == rc && ModelOf(c) == old(ModelOf(c));
    Join(n, a, c, ra, rc);
  }

  /** set_balance on n's right child. */
  method SetRightBal(n: AvlNode, b: Balance)
    requires n.Valid() && n.right != null
    modifies n.right
    ensures n.Valid() && n.Repr == old(n.Repr) && n.right == old(n.right)
    ensures old(n.Model()).right.Node?
    ensures n.Model() == old(n.Model()).(right := old(n.Model()).right.(bal := b))
  {
    Split(n);
    SetBal(n.right, b);
    RightChanged(n);
  }

  /** set_balance on n's left child. */
  method SetLeftBal(n: AvlNode, b: Balance)
    requires n.Valid() && n.left != null
    modifies n.left
    ensures n.Valid() && n.Repr == old(n.Repr) && n.left == old(n.left)
    ensures old(n.Model()).left.Node?
    ensures n.Model() == old(n.Model()).(left := old(n.Model()).left.(bal := b))
  {
    Split(n);
    SetBal(n.left, b);
    LeftChanged(n);
  }

  /** set_balance on the left child of n's right child. */
  method SetRightLeftBal(n: AvlNode, b: Balance)
    requires n.Valid() && n.right != null && n.right.left != null
    modifies n.right.left
    ensures n.Valid() && n.Repr == old(n.Repr) && n.right == old(n.right)
    ensures old(n.Model()).right.Node? && old(n.Model()).right.left.Node?
    ensures n.Model() == old(n.Model()).(right := old(n.Model()).right.(left :=
                           old(n.Model()).right.left.(bal := b)))
  {
    Split(n);
    SetLeftBal(n.right, b);
    RightChanged(n);
  }

  /** set_balance on the right child of n's left child. */
  method SetLeftRightBal(n: AvlNode, b: Balance)
    requires n.Valid() && n.left != null && n.left.right != null
    modifies n.left.right
    ensures n.Valid() && n.Repr == old(n.Repr) && n.left == old(n.left)
    ensures old(n.Model()).left.Node? && old(n.Model()).left.right.Node?
    ensures n.Model() == old(n.Model()).(left := old(n.Model()).left.(right :=
                           old(n.Model()).left.right.(bal := b)))
  {
    Split(n);
    SetRightBal(n.left, b);
    LeftChanged(n);
  }

  /** rotate_right applied to n's right slot (right_tree in right_balance). */
  method RotateRightChild(n: AvlNode)
    requires n.Valid() && n.right != null && n.right.left != null
    modifies n, n.right, n.right.left
    ensures n.Valid() && n.Repr == old(n.Repr)
    ensures old(n.Model()).right.Node? && old(n.Model()).right.left.Node?
    ensures n.Model() == old(n.Model()).(right := R.RotateRight(old(n.Model()).right))
  {
    Split(n);
    Split(n.right);
    var c' := RotateRight(n.right);
    n.right := c';
    RightChanged(n);
  }

  /** rotate_left applied to n's left slot (left_tree in left_balance). */
  method RotateLeftChild(n: AvlNode)
    requires n.Valid() && n.left != null && n.left.right != null
    modifies n, n.left, n.left.right
    ensures n.Valid() && n.Repr == old(n.Repr)
    ensures old(n.Model()).left.Node? && old(n.Model()).left.right.Node?
    ensures n.Model() == old(n.Model()).(left := R.RotateLeft(old(n.Model()).left))
  {
    Split(n);
    Split(n.left);
    var c' := RotateLeft(n.left);
    n.left := c';
    LeftChanged(n);
  }

  /** right_balance on the slot holding n: the tags are set as if the
      rotations were done, then the rotations run. The new subtree is the
      one the value model computes, and the flag is the same. */
  method RightBalance(n: AvlNode) returns (r: AvlNode, shorter: bool)
    requires n.Valid()
    requires Balanced(n.Model().left) && Balanced(n.Model().right)
    requires Height(n.Model().right) == Height(n.Model().left) + 2
    modifies n.Repr
    ensures r.Valid() && r.Repr == old(n.Repr)
    ensures (r.Model(), shorter) == R.RightBalance(old(n.Model()))
  {
    Split(n);
    var c := n.right;
    Split(c);
    if c.bal == RightHigher {
      SetBal(n, EqualHeight);
      SetRightBal(n, EqualHeight);
      r := RotateLeft(n);
      shorter := true;
    } else if c.bal == EqualHeight {
      SetBal(n, RightHigher);
      SetRightBal(n, LeftHigher);
      r := RotateLeft(n);
      shorter := false;
    } else {
      var g := c.left;
      Split(g);
      var tags := R.RightDoubleTags(g.bal);
      SetBal(n, tags.0);
      SetRightBal(n, tags.1);
      SetRightLeftBal(n, EqualHeight);
      RotateRightChild(n);
      r := RotateLeft(n);
      shorter := true;
    }
  }

  /** left_balance on the slot holding n: the mirror image of RightBalance. */
  method LeftBalance(n: AvlNode) returns (r: AvlNode, shorter: bool)
    requires n.Valid()
    requires Balanced(n.Model().left) && Balanced(n.Model().right)
    requires Height(n.Model().left) == Height(n.Model().right) + 2
    modifies n.Repr
    ensures r.Valid() && r.Repr == old(n.Repr)
    ensures (r.Model(), shorter) == R.LeftBalance(old(n.Model()))
  {
    Split(n);
    var c := n.left;
    Split(c);
    if c.bal == LeftHigher {
      SetBal(n, EqualHeight);
      SetLeftBal(n, EqualHeight);
      r := RotateRight(n);
      shorter := true;
    } else if c.bal == EqualHeight {
      SetBal(n, LeftHigher);
      SetLeftBal(n, RightHigher);
      r := RotateRight(n);
      shorter := false;
    } else {
      var g := c.right;
      Split(g);
      var tags := R.LeftDoubleTags(g.bal);
      SetBal(n, tags.0);
      SetLeftBal(n, tags.1);
      SetLeftRightBal(n, EqualHeight);
      RotateLeftChild(n);
      r := RotateRight(n);
      shorter := true;
    }
  }

  /** Stores x in n's left slot, the caller's half of a rebound
      `sub_root->left`; n's footprint takes in x's. */
  method LinkLeft(n: AvlNode, x: AvlNode?)
    requires ValidOf(x) && ValidOf(n.right)
    requires n !in ReprOf(x) && n !in ReprOf(n.right) && ReprOf(x) !! ReprOf(n.right)
    requires n in n.Repr && ReprOf(n.right) <= n.Repr
    modifies n
    ensures n.left == x && n.right == old(n.right) && n.data == old(n.data) && n.bal == old(n.bal)
    ensures n.Valid() && n.Repr == old(n.Repr) + ReprOf(x)
    ensures n.Model() == Tree.Node(n.data, ModelOf(x), old(ModelOf(n.right)), n.bal)
  {
    ghost var b, rb, rx := n.right, ReprOf(n.right), ReprOf(x);
    n.left := x;
    n.Repr := n.Repr + rx;
    assert ValidOf(x) && ReprOf(x) == rx && ModelOf(x) == old(ModelOf(x));
    assert ValidOf(b) && ReprOf(b) == rb && ModelOf(b) == old(ModelOf(b));
    Join(n, x, b, rx, rb);
  }

  /** The mirror image of LinkLeft. */
  method LinkRight(n: AvlNode, x: AvlNode?)
    requires ValidOf(x) && ValidOf(n.left)
    requires n !in ReprOf(x) && n !in ReprOf(n.left) && ReprOf(x) !! ReprOf(n.left)
    requires n in n.Repr && ReprOf(n.left) <= n.Repr
    modifies n
    ensures n.right == x && n.left == old(n.left) && n.data == old(n.data) && n.bal == old(n.bal)
    ensures n.Valid() && n.Repr == old(n.Repr) + ReprOf(x)
    ensures n.Model() == Tree.Node(n.data, old(ModelOf(n.left)), ModelOf(x), n.bal)
  {
    ghost var a, ra, rx := n.left, ReprOf(n.left), ReprOf(x);
    n.right := x;
    n.Repr := n.Repr + rx;
    assert ValidOf(x) && ReprOf(x) == rx && ModelOf(x) == old(ModelOf(x));
    assert ValidOf(a) && ReprOf(a) == ra && ModelOf(a) == old(ModelOf(a));
    Join(n, a, x, ra, rx);
  }
}
