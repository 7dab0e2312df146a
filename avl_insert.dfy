/** avl_insert on subtree values: recursive descent, then the bottom-up
    tag update driven by the "taller" signal. */
module AvlInsertion {
  import opened AvlModel
  import opened AvlRotate

  /** What avl_insert hands back: the subtree now held by the caller's slot,
      the outcome code and the taller flag. */
  datatype Inserted = Inserted(tree: Tree, code: ErrorCode, taller: bool)

  /** avl_insert. A key already present is reported as a duplicate and
      nothing changes; otherwise the key joins the key set, the subtree stays
      a valid AVL subtree, and "taller" tells whether its height grew by one.
      A subtree that grew and was not empty before never has an equal_height
      root, which is why the rebalancers' equal_height branch is unreachable
      from insertion. */
  function AvlInsert(t: Tree, k: int): (o: Inserted)
    requires Valid(t)
    ensures InsertedOk(t, k, o)
    decreases t
  {
    match t
    case Empty => Inserted(Leaf(k), Success, true)
    case Node(d, l, r, b) =>
      if k == d then Inserted(t, DuplicateError, false)
      else if k < d then
        var o := AvlInsert(l, k);
        InsertLeftStep(t, k, o);
        GrewLeft(t.(left := o.tree), o.code, o.taller)
      else
        var o := AvlInsert(r, k);
        InsertRightStep(t, k, o);
        GrewRight(t.(right := o.tree), o.code, o.taller)
  }

  /** The left-side table of avl_insert: t's left subtree has just been
      replaced by one that is one level taller when "taller" holds, while
      t's tag still describes the old heights. */
  function GrewLeft(t: Tree, code: ErrorCode, taller: bool): (o: Inserted)
    requires GrewLeftReady(t, taller)
    ensures Valid(o.tree) && Keys(o.tree) == Keys(t) && o.code == code
    ensures Height(o.tree) == 1 + Max(Height(t.left) - (if taller then 1 else 0), Height(t.right))
                              + (if o.taller then 1 else 0)
    ensures o.taller ==> taller && o.tree.bal != EqualHeight
  {
    if !taller then Inserted(t, code, false)
    else
      match t.bal
      case LeftHigher =>
        var res := LeftBalance(t);
        SameInOrder(t, res.0);
        Inserted(res.0, code, false)
      case EqualHeight => Inserted(t.(bal := LeftHigher), code, true)
      case RightHigher => Inserted(t.(bal := EqualHeight), code, false)
  }

  /** The right-side table of avl_insert, the mirror image of GrewLeft. */
  function GrewRight(t: Tree, code: ErrorCode, taller: bool): (o: Inserted)
    requires GrewRightReady(t, taller)
    ensures Valid(o.tree) && Keys(o.tree) == Keys(t) && o.code == code
    ensures Height(o.tree) == 1 + Max(Height(t.left), Height(t.right) - (if taller then 1 else 0))
                              + (if o.taller then 1 else 0)
    ensures o.taller ==> taller && o.tree.bal != EqualHeight
  {
    if !taller then Inserted(t, code, false)
    else
      match t.bal
      case LeftHigher => Inserted(t.(bal := EqualHeight), code, false)
      case EqualHeight => Inserted(t.(bal := RightHigher), code, true)
      case RightHigher =>
        var res := RightBalance(t);
        SameInOrder(t, res.0);
        Inserted(res.0, code, false)
  }

  /** The state in which avl_insert's left-side switch runs: t's left
      subtree was just replaced by a valid one that is one level taller when
      "taller" holds (and then not equal_height unless it is a new leaf),
      while t's tag still describes the old heights. */
  predicate GrewLeftReady(t: Tree, taller: bool) {
    t.Node? && Ordered(t) && Balanced(t.left) && Balanced(t.right) &&
    (taller ==> -1 <= Height(t.left) - 1 - Height(t.right) <= 1 &&
                t.bal == TagOf(Height(t.left) - 1, Height(t.right))) &&
    (taller && Height(t.left) > 1 ==> t.left.bal != EqualHeight) &&
    (!taller ==> Balanced(t))
  }

  /** The mirror image of GrewLeftReady. */
  predicate GrewRightReady(t: Tree, taller: bool) {
    t.Node? && Ordered(t) && Balanced(t.left) && Balanced(t.right) &&
    (taller ==> -1 <= Height(t.left) - (Height(t.right) - 1) <= 1 &&
                t.bal == TagOf(Height(t.left), Height(t.right) - 1)) &&
    (taller && Height(t.right) > 1 ==> t.right.bal != EqualHeight) &&
    (!taller ==> Balanced(t))
  }

  /** What avl_insert promises of the subtree it returns, for the key k
      inserted into t. */
  predicate InsertedOk(t: Tree, k: int, o: Inserted)
    requires Valid(t)
  {
    Valid(o.tree) &&
    (o.code == DuplicateError <==> k in Keys(t)) &&
    o.code != NotPresent &&
    (o.code == DuplicateError ==> o.tree == t && !o.taller) &&
    (o.code == Success ==> Keys(o.tree) == Keys(t) + {k}) &&
    Height(o.tree) == Height(t) + (if o.taller then 1 else 0) &&
    (o.taller && t.Node? ==> o.tree.bal != EqualHeight)
  }

  /** One step of avl_insert on the left: given what the recursive call
      promises for the left subtree, the left-side table keeps the promise. */
  lemma InsertLeftStep(t: Tree, k: int, o: Inserted)
    requires Valid(t) && t.Node? && k < t.data
    requires InsertedOk(t.left, k, o)
    ensures GrewLeftReady(t.(left := o.tree), o.taller)
    ensures InsertedOk(t, k, GrewLeft(t.(left := o.tree), o.code, o.taller))
  {
    var t' := t.(left := o.tree);
    assert forall x :: x in Keys(o.tree) ==> x < t.data;
    assert Ordered(t');
    var o' := GrewLeft(t', o.code, o.taller);
    assert Keys(o'.tree) == Keys(t');
  }

  /** The mirror image of InsertLeftStep. */
  lemma InsertRightStep(t: Tree, k: int, o: Inserted)
    requires Valid(t) && t.Node? && t.data < k
    requires InsertedOk(t.right, k, o)
    ensures GrewRightReady(t.(right := o.tree), o.taller)
    ensures InsertedOk(t, k, GrewRight(t.(right := o.tree), o.code, o.taller))
  {
    var t' := t.(right := o.tree);
    assert forall x :: x in Keys(o.tree) ==> t.data < x;
    assert Ordered(t');
    var o' := GrewRight(t', o.code, o.taller);
    assert Keys(o'.tree) == Keys(t');
  }

  /** The equal_height branch of left_balance is unreachable from insertion:
      when the left subtree of a left_higher node grew, its new root is never
      equal_height. */
  lemma InsertNeverBalancesEqualChild(t: Tree, k: int)
    requires Valid(t) && t.Node? && k < t.data && t.bal == LeftHigher
    requires AvlInsert(t.left, k).taller
    ensures AvlInsert(t.left, k).tree.bal != EqualHeight
    ensures GrewLeft(t.(left := AvlInsert(t.left, k).tree), AvlInsert(t.left, k).code, true).taller == false
  {
    InsertLeftStep(t, k, AvlInsert(t.left, k));
  }

  /** The equal_height branch of right_balance, the one the engine marks as
      impossible for insertion, is indeed unreachable from it: when the right
      subtree of a right_higher node grew, its new root is never equal_height. */
  lemma InsertNeverBalancesEqualChildRight(t: Tree, k: int)
    requires Valid(t) && t.Node? && t.data < k && t.bal == RightHigher
    requires AvlInsert(t.right, k).taller
    ensures AvlInsert(t.right, k).tree.bal != EqualHeight
    ensures GrewRight(t.(right := AvlInsert(t.right, k).tree), AvlInsert(t.right, k).code, true).taller == false
  {
    InsertRightStep(t, k, AvlInsert(t.right, k));
  }
}
