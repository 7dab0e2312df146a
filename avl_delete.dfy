/** avl_delete on subtree values: recursive descent, the three structural
    cases at the matched node, and the bottom-up tag update driven by the
    "shorter" signal. */
module AvlDeletion {
  import opened AvlModel
  import opened AvlRotate

  /** What avl_delete hands back: the subtree now held by the caller's slot,
      the outcome code and the shorter flag. */
  datatype Deleted = Deleted(tree: Tree, code: ErrorCode, shorter: bool)

  /** The in-order successor search of the two-children case: the key of the
      leftmost node, which in a BST is the least key. */
  function MinKey(t: Tree): (m: int)
    requires t.Node?
    ensures m in Keys(t)
    ensures Ordered(t) ==> forall x :: x in Keys(t) ==> m <= x
  {
    if t.left.Empty? then t.data else MinKey(t.left)
  }

  /** What avl_delete promises of the subtree it returns, for the key k
      removed from t. */
  predicate DeletedOk(t: Tree, k: int, o: Deleted)
    requires Valid(t)
  {
    Valid(o.tree) &&
    (o.code == NotPresent <==> k !in Keys(t)) &&
    o.code != DuplicateError &&
    (o.code == NotPresent ==> o.tree == t && !o.shorter) &&
    (o.code == Success ==> Keys(o.tree) == Keys(t) - {k}) &&
    Height(o.tree) == Height(t) - (if o.shorter then 1 else 0)
  }

  /** avl_delete. An absent key is reported as not present and nothing
      changes; otherwise the key leaves the key set, the subtree stays a
      valid AVL subtree, and "shorter" tells whether its height dropped by
      one. */
  function AvlDelete(t: Tree, k: int): (o: Deleted)
    requires Valid(t)
    ensures DeletedOk(t, k, o)
    decreases t
  {
    match t
    case Empty => Deleted(Empty, NotPresent, false)
    case Node(d, l, r, b) =>
      if k < d then
        var o := AvlDelete(l, k);
        DeleteLeftStep(t, k, o);
        ShrankLeft(t.(left := o.tree), o.code, o.shorter)
      else if k > d then
        var o := AvlDelete(r, k);
        DeleteRightStep(t, k, o);
        ShrankRight(t.(right := o.tree), o.code, o.shorter)
      else if l.Empty? then
        SpliceStep(t);
        Deleted(r, Success, true)
      else if r.Empty? then
        SpliceStep(t);
        Deleted(l, Success, true)
      else
        var s := MinKey(r);
        var o := AvlDelete(r, s);
        DeleteSuccessorStep(t, o);
        ShrankRight(Node(s, l, o.tree, b), o.code, o.shorter)
  }

  /** The state in which avl_delete's left-side switch runs: t's left
      subtree was just replaced by a valid one that is one level shorter
      when "shorter" holds, while t's tag still describes the old heights. */
  predicate ShrankLeftReady(t: Tree, shorter: bool) {
    t.Node? && Ordered(t) && Balanced(t.left) && Balanced(t.right) &&
    (shorter ==> -1 <= Height(t.left) + 1 - Height(t.right) <= 1 &&
                 t.bal == TagOf(Height(t.left) + 1, Height(t.right))) &&
    (!shorter ==> Balanced(t))
  }

  /** The mirror image of ShrankLeftReady. */
  predicate ShrankRightReady(t: Tree, shorter: bool) {
    t.Node? && Ordered(t) && Balanced(t.left) && Balanced(t.right) &&
    (shorter ==> -1 <= Height(t.left) - (Height(t.right) + 1) <= 1 &&
                 t.bal == TagOf(Height(t.left), Height(t.right) + 1)) &&
    (!shorter ==> Balanced(t))
  }

  /** The left-side table of avl_delete: t's left subtree has just been
      replaced by one that is one level shorter when "shorter" holds, while
      t's tag still describes the old heights. */
  function ShrankLeft(t: Tree, code: ErrorCode, shorter: bool): (o: Deleted)
    requires ShrankLeftReady(t, shorter)
    ensures Valid(o.tree) && Keys(o.tree) == Keys(t) && o.code == code
    ensures Height(o.tree) == 1 + Max(Height(t.left) + (if shorter then 1 else 0), Height(t.right))
                              - (if o.shorter then 1 else 0)
    ensures o.shorter ==> shorter
  {
    if !shorter then Deleted(t, code, false)
    else
      match t.bal
      case LeftHigher => Deleted(t.(bal := EqualHeight), code, true)
      case EqualHeight => Deleted(t.(bal := RightHigher), code, false)
      case RightHigher =>
        var res := RightBalance(t);
        SameInOrder(t, res.0);
        Deleted(res.0, code, res.1)
  }

  /** The right-side table of avl_delete, the mirror image of ShrankLeft;
      the two-children case uses it too. */
  function ShrankRight(t: Tree, code: ErrorCode, shorter: bool): (o: Deleted)
    requires ShrankRightReady(t, shorter)
    ensures Valid(o.tree) && Keys(o.tree) == Keys(t) && o.code == code
    ensures Height(o.tree) == 1 + Max(Height(t.left), Height(t.right) + (if shorter then 1 else 0))
                              - (if o.shorter then 1 else 0)
    ensures o.shorter ==> shorter
  {
    if !shorter then Deleted(t, code, false)
    else
      match t.bal
      case RightHigher => Deleted(t.(bal := EqualHeight), code, true)
      case EqualHeight => Deleted(t.(bal := LeftHigher), code, false)
      case LeftHigher =>
        var res := LeftBalance(t);
        SameInOrder(t, res.0);
        Deleted(res.0, code, res.1)
  }

  /** One step of avl_delete on the left: given what the recursive call
      promises for the left subtree, the left-side table keeps the promise. */
  lemma DeleteLeftStep(t: Tree, k: int, o: Deleted)
    requires Valid(t) && t.Node? && k < t.data
    requires DeletedOk(t.left, k, o)
    ensures ShrankLeftReady(t.(left := o.tree), o.shorter)
    ensures DeletedOk(t, k, ShrankLeft(t.(left := o.tree), o.code, o.shorter))
  {
    var t' := t.(left := o.tree);
    assert forall x :: x in Keys(o.tree) ==> x < t.data;
    assert Ordered(t');
    var o' := ShrankLeft(t', o.code, o.shorter);
    assert Keys(o'.tree) == Keys(t');
  }

  /** The mirror image of DeleteLeftStep. */
  lemma DeleteRightStep(t: Tree, k: int, o: Deleted)
    requires Valid(t) && t.Node? && t.data < k
    requires DeletedOk(t.right, k, o)
    ensures ShrankRightReady(t.(right := o.tree), o.shorter)
    ensures DeletedOk(t, k, ShrankRight(t.(right := o.tree), o.code, o.shorter))
  {
    var t' := t.(right := o.tree);
    assert forall x :: x in Keys(o.tree) ==> t.data < x;
    assert Ordered(t');
    var o' := ShrankRight(t', o.code, o.shorter);
    assert Keys(o'.tree) == Keys(t');
  }

  /** Splicing out a matched node that lacks a child: the other child takes
      its place and the subtree is exactly one level shorter. */
  lemma SpliceStep(t: Tree)
    requires Valid(t) && t.Node? && (t.left.Empty? || t.right.Empty?)
    ensures t.left.Empty? ==> DeletedOk(t, t.data, Deleted(t.right, Success, true))
    ensures t.right.Empty? ==> DeletedOk(t, t.data, Deleted(t.left, Success, true))
  {
    assert t.data !in Keys(t.left) && t.data !in Keys(t.right);
  }

  /** The two-children case: the successor key overwrites the node's key
      (children and tag kept) and is removed from the right subtree; the
      right-side table then keeps avl_delete's promise for the node's key. */
  lemma DeleteSuccessorStep(t: Tree, o: Deleted)
    requires Valid(t) && t.Node? && t.left.Node? && t.right.Node?
    requires DeletedOk(t.right, MinKey(t.right), o)
    ensures ShrankRightReady(Node(MinKey(t.right), t.left, o.tree, t.bal), o.shorter)
    ensures DeletedOk(t, t.data,
                      ShrankRight(Node(MinKey(t.right), t.left, o.tree, t.bal), o.code, o.shorter))
  {
    var s := MinKey(t.right);
    var t' := Node(s, t.left, o.tree, t.bal);
    assert forall x :: x in Keys(t.left) ==> x < s;
    assert forall x :: x in Keys(o.tree) ==> s < x;
    assert Ordered(t');
    var o' := ShrankRight(t', o.code, o.shorter);
    assert Keys(o'.tree) == Keys(t');
    assert Keys(t') == Keys(t) - {t.data};
  }

  /** Deletion does reach the equal_height branch of right_balance: for any
      keys a < b < c < d < e, removing a from the tree b(a, d(c, e)) leaves
      a root two levels heavier on the right whose right child is
      equal_height; the single rotation makes d the root with a left_higher
      tag, and the height does not drop. */
  lemma DeleteReachesEqualHeightCase(a: int, b: int, c: int, d: int, e: int)
    requires a < b < c < d < e
    ensures Valid(RightHeavyExample(a, b, c, d, e))
    ensures AvlDelete(RightHeavyExample(a, b, c, d, e), a) ==
            Deleted(Node(d, Node(b, Empty, Leaf(c), RightHigher), Leaf(e), LeftHigher), Success, false)
  {
    var t := RightHeavyExample(a, b, c, d, e);
    LeafValid(a);
    ThreeNodeValid(c, d, e);
    assert Valid(t);
    var t1 := t.(left := Empty);
    assert AvlDelete(Leaf(a), a) == Deleted(Empty, Success, true);
    assert AvlDelete(t, a) == ShrankLeft(t1, Success, true);
    assert Ordered(t1);
    assert ShrankLeftReady(t1, true);
  }

  /** The mirror image for left_balance: removing e from d(b(a, c), e)
      leaves a root two levels heavier on the left whose left child is
      equal_height; the single rotation makes b the root with a right_higher
      tag, and the height does not drop. */
  lemma DeleteReachesLeftEqualHeightCase(a: int, b: int, c: int, d: int, e: int)
    requires a < b < c < d < e
    ensures Valid(LeftHeavyExample(a, b, c, d, e))
    ensures AvlDelete(LeftHeavyExample(a, b, c, d, e), e) ==
            Deleted(Node(b, Leaf(a), Node(d, Leaf(c), Empty, LeftHigher), RightHigher), Success, false)
  {
    var t := LeftHeavyExample(a, b, c, d, e);
    LeafValid(e);
    ThreeNodeValid(a, b, c);
    assert Valid(t);
    var t1 := t.(right := Empty);
    assert AvlDelete(Leaf(e), e) == Deleted(Empty, Success, true);
    assert AvlDelete(t, e) == ShrankRight(t1, Success, true);
    assert Ordered(t1);
    assert ShrankRightReady(t1, true);
  }

  lemma LeafValid(k: int)
    ensures Valid(Leaf(k)) && Height(Leaf(k)) == 1
    ensures forall x :: x in Keys(Leaf(k)) ==> x == k
  {
  }

  lemma ThreeNodeValid(x: int, y: int, z: int)
    requires x < y < z
    ensures Valid(Node(y, Leaf(x), Leaf(z), EqualHeight))
    ensures Height(Node(y, Leaf(x), Leaf(z), EqualHeight)) == 2
    ensures forall k :: k in Keys(Node(y, Leaf(x), Leaf(z), EqualHeight)) ==> x <= k <= z
  {
    LeafValid(x);
    LeafValid(z);
  }

  function RightHeavyExample(a: int, b: int, c: int, d: int, e: int): Tree {
    Node(b, Leaf(a), Node(d, Leaf(c), Leaf(e), EqualHeight), RightHigher)
  }

  function LeftHeavyExample(a: int, b: int, c: int, d: int, e: int): Tree {
    Node(d, Node(b, Leaf(a), Leaf(c), EqualHeight), Leaf(e), LeftHigher)
  }
}
