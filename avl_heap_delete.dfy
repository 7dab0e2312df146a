/** avl_delete on heap nodes: the recursive descent, the three structural
    cases at the matched node (the two-children case finds the in-order
    successor with a loop down left links), and the parent's tag table on
    the way back. */
module AvlHeapDeletion {
  import opened AvlModel
  import opened AvlHeap
  import D = AvlDeletion

  /** avl_delete on the slot holding n (null for an empty slot): the returned
      node (possibly null) is what the slot must now hold, it owns only nodes
      n owned, and code, flag and subtree are exactly those of the value
      model. */
  method AvlDelete(n: AvlNode?, k: int) returns (r: AvlNode?, code: ErrorCode, shorter: bool)
    requires ValidOf(n) && Valid(ModelOf(n))
    modifies ReprOf(n)
    ensures ValidOf(r) && ReprOf(r) <= old(ReprOf(n))
    ensures D.Deleted(ModelOf(r), code, shorter) == D.AvlDelete(old(ModelOf(n)), k)
    decreases ReprOf(n), 2
  {
    code := Success;
    if n == null {
      r, code, shorter := null, NotPresent, false;
      return;
    }
    ghost var t := n.Model();
    Split(n);
    if k < n.data {
      code, shorter := DescendLeft(n, k);
      D.DeleteLeftStep(t, k, D.Deleted(n.Model().left, code, shorter));
      r, shorter := ShrankLeft(n, code, shorter);
    } else if k > n.data {
      code, shorter := DescendRight(n, k);
      D.DeleteRightStep(t, k, D.Deleted(n.Model().right, code, shorter));
      r, shorter := ShrankRight(n, code, shorter);
    } else {
      shorter := true;
      if n.left == null {
        r := n.right;
      } else if n.right == null {
        r := n.left;
      } else {
        r, code, shorter := RemoveWithTwoChildren(n);
      }
    }
  }

  /** The in-order successor search: from the right child, follow left links
      to the leftmost node and report its key. Nothing is written. */
  method SuccessorKey(c: AvlNode) returns (s: int)
    requires c.Valid()
    ensures s == D.MinKey(c.Model())
  {
    var successor: AvlNode := c;
    while successor.left != null
      invariant successor.Valid()
      invariant D.MinKey(successor.Model()) == D.MinKey(c.Model())
      decreases successor.Repr
    {
      Split(successor);
      successor := successor.left;
    }
    Split(successor);
    s := successor.data;
  }

  /** The two-children case of avl_delete: the successor's key overwrites n's
      key, is deleted from the right subtree, and the right-side switch
      runs. */
  method RemoveWithTwoChildren(n: AvlNode) returns (r: AvlNode, code: ErrorCode, shorter: bool)
    requires n.Valid() && Valid(n.Model()) && n.left != null && n.right != null
    modifies n.Repr
    ensures r.Valid() && r.Repr <= old(n.Repr)
    ensures D.Deleted(r.Model(), code, shorter) == D.AvlDelete(old(n.Model()), old(n.data))
    decreases n.Repr, 1
  {
    ghost var t := n.Model();
    Split(n);
    var s := SuccessorKey(n.right);
    SetData(n, s);
    code, shorter := DescendRight(n, s);
    ghost var o := D.Deleted(n.Model().right, code, shorter);
    assert n.Model() == Node(s, t.left, o.tree, t.bal);
    D.DeleteSuccessorStep(t, o);
    assert D.AvlDelete(t, t.data) == D.ShrankRight(n.Model(), code, shorter);
    r, shorter := ShrankRight(n, code, shorter);
  }

  /** `avl_delete(sub_root->left, ...)`: the recursive call on the left slot
      and the rebinding of that slot to what it returns. */
  method DescendLeft(n: AvlNode, k: int) returns (code: ErrorCode, shorter: bool)
    requires n.Valid() && Valid(n.Model().left)
    modifies n.Repr
    ensures n.Valid() && n.Repr <= old(n.Repr)
    ensures n.Model() == old(n.Model()).(left := n.Model().left)
    ensures D.Deleted(n.Model().left, code, shorter) == D.AvlDelete(old(n.Model()).left, k)
    decreases n.Repr, 0
  {
    Split(n);
    var l;
    l, code, shorter := AvlDelete(n.left, k);
    LinkLeft(n, l);
  }

  /** `avl_delete(sub_root->right, ...)`: the mirror image of DescendLeft. */
  method DescendRight(n: AvlNode, k: int) returns (code: ErrorCode, shorter: bool)
    requires n.Valid() && Valid(n.Model().right)
    modifies n.Repr
    ensures n.Valid() && n.Repr <= old(n.Repr)
    ensures n.Model() == old(n.Model()).(right := n.Model().right)
    ensures D.Deleted(n.Model().right, code, shorter) == D.AvlDelete(old(n.Model()).right, k)
    decreases n.Repr, 0
  {
    Split(n);
    var rt;
    rt, code, shorter := AvlDelete(n.right, k);
    LinkRight(n, rt);
  }

  /** The left-side switch of avl_delete, run after the left slot has been
      rebound; its tag still describes the old heights. */
  method ShrankLeft(n: AvlNode, ghost code: ErrorCode, shorter: bool) returns (r: AvlNode, shorter': bool)
    requires n.Valid() && D.ShrankLeftReady(n.Model(), shorter)
    modifies n.Repr
    ensures r.Valid() && r.Repr == old(n.Repr)
    ensures D.Deleted(r.Model(), code, shorter') == D.ShrankLeft(old(n.Model()), code, shorter)
  {
    r, shorter' := n, shorter;
    if shorter {
      if n.bal == LeftHigher {
        SetBal(n, EqualHeight);
      } else if n.bal == EqualHeight {
        SetBal(n, RightHigher);
        shorter' := false;
      } else {
        r, shorter' := RightBalance(n);
      }
    }
  }

  /** The right-side switch of avl_delete, the mirror image of ShrankLeft;
      the two-children case runs it too. */
  method ShrankRight(n: AvlNode, ghost code: ErrorCode, shorter: bool) returns (r: AvlNode, shorter': bool)
    requires n.Valid() && D.ShrankRightReady(n.Model(), shorter)
    modifies n.Repr
    ensures r.Valid() && r.Repr == old(n.Repr)
    ensures D.Deleted(r.Model(), code, shorter') == D.ShrankRight(old(n.Model()), code, shorter)
  {
    r, shorter' := n, shorter;
    if shorter {
      if n.bal == RightHigher {
        SetBal(n, EqualHeight);
      } else if n.bal == EqualHeight {
        SetBal(n, LeftHigher);
        shorter' := false;
      } else {
        r, shorter' := LeftBalance(n);
      }
    }
  }
}
