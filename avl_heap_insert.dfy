/** avl_insert on heap nodes: the recursive descent rebinds the child slot
    it descended into, then the parent's tag table runs on the way back. */
module AvlHeapInsertion {
  import opened AvlModel
  import opened AvlHeap
  import I = AvlInsertion

  /** avl_insert on the slot holding n (null for an empty slot): the returned
      node is what the slot must now hold; the nodes it owns are n's old
      nodes plus the one new node. Code, flag and subtree are exactly those
      of the value model. */
  method AvlInsert(n: AvlNode?, k: int) returns (r: AvlNode, code: ErrorCode, taller: bool)
    requires ValidOf(n) && Valid(ModelOf(n))
    modifies ReprOf(n)
    ensures r.Valid() && fresh(r.Repr - old(ReprOf(n)))
    ensures I.Inserted(r.Model(), code, taller) == I.AvlInsert(old(ModelOf(n)), k)
    decreases ReprOf(n), 1
  {
    if n == null {
      r := new AvlNode(k);
      code, taller := Success, true;
    } else if k == n.data {
      r, code, taller := n, DuplicateError, false;
    } else if k < n.data {
      ghost var t := n.Model();
      code, taller := DescendLeft(n, k);
      ghost var o := I.Inserted(n.Model().left, code, taller);
      I.InsertLeftStep(t, k, o);
      r, taller := GrewLeft(n, code, taller);
    } else {
      ghost var t := n.Model();
      code, taller := DescendRight(n, k);
      ghost var o := I.Inserted(n.Model().right, code, taller);
      I.InsertRightStep(t, k, o);
      r, taller := GrewRight(n, code, taller);
    }
  }

  /** `avl_insert(sub_root->left, ...)`: the recursive call on the left slot
      and the rebinding of that slot to what it returns. */
  method DescendLeft(n: AvlNode, k: int) returns (code: ErrorCode, taller: bool)
    requires n.Valid() && Valid(n.Model())
    modifies n.Repr
    ensures n.Valid() && fresh(n.Repr - old(n.Repr))
    ensures n.Model() == old(n.Model()).(left := n.Model().left)
    ensures I.Inserted(n.Model().left, code, taller) == I.AvlInsert(old(n.Model()).left, k)
    decreases n.Repr, 0
  {
    Split(n);
    var lt;
    lt, code, taller := AvlInsert(n.left, k);
    LinkLeft(n, lt);
  }

  /** `avl_insert(sub_root->right, ...)`: the mirror image of DescendLeft. */
  method DescendRight(n: AvlNode, k: int) returns (code: ErrorCode, taller: bool)
    requires n.Valid() && Valid(n.Model())
    modifies n.Repr
    ensures n.Valid() && fresh(n.Repr - old(n.Repr))
    ensures n.Model() == old(n.Model()).(right := n.Model().right)
    ensures I.Inserted(n.Model().right, code, taller) == I.AvlInsert(old(n.Model()).right, k)
    decreases n.Repr, 0
  {
    Split(n);
    var rt;
    rt, code, taller := AvlInsert(n.right, k);
    LinkRight(n, rt);
  }

  /** The left-side switch of avl_insert, run after the left slot has been
      rebound; its tag still describes the old heights. */
  method GrewLeft(n: AvlNode, ghost code: ErrorCode, taller: bool) returns (r: AvlNode, taller': bool)
    requires n.Valid() && I.GrewLeftReady(n.Model(), taller)
    modifies n.Repr
    ensures r.Valid() && r.Repr == old(n.Repr)
    ensures I.Inserted(r.Model(), code, taller') == I.GrewLeft(old(n.Model()), code, taller)
  {
    r, taller' := n, taller;
    if taller {
      if n.bal == LeftHigher {
        var ignored;
        r, ignored := LeftBalance(n);
        taller' := false;
      } else if n.bal == EqualHeight {
        SetBal(n, LeftHigher);
      } else {
        SetBal(n, EqualHeight);
        taller' := false;
      }
    }
  }

  /** The right-side switch of avl_insert, the mirror image of GrewLeft. */
  method GrewRight(n: AvlNode, ghost code: ErrorCode, taller: bool) returns (r: AvlNode, taller': bool)
    requires n.Valid() && I.GrewRightReady(n.Model(), taller)
    modifies n.Repr
    ensures r.Valid() && r.Repr == old(n.Repr)
    ensures I.Inserted(r.Model(), code, taller') == I.GrewRight(old(n.Model()), code, taller)
  {
    r, taller' := n, taller;
    if taller {
      if n.bal == LeftHigher {
        SetBal(n, EqualHeight);
        taller' := false;
      } else if n.bal == EqualHeight {
        SetBal(n, RightHigher);
      } else {
        var ignored;
        r, ignored := RightBalance(n);
        taller' := false;
      }
    }
  }
}
