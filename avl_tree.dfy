/** The AVL_tree object: it owns the root slot, and its public insert and
    remove run the recursive engine on that slot. */
module AvlTrees {
  import opened AvlModel
  import opened AvlHeap
  import I = AvlInsertion
  import D = AvlDeletion
  import HI = AvlHeapInsertion
  import HD = AvlHeapDeletion

  class AvlTree {
    var root: AvlNode?
    ghost var Repr: set<object>

    /** The root slot holds a valid AVL search tree owned by this object. */
    ghost predicate Valid()
      reads this, Repr
    {
      this in Repr &&
      (root != null ==> root in Repr && root.Repr <= Repr && this !in root.Repr && root.Valid()) &&
      AvlModel.Valid(ModelOf(root))
    }

    /** The tree's value. */
    ghost function Model(): Tree
      reads this, Repr
      requires Valid()
    {
      ModelOf(root)
    }

    /** An empty tree. */
    constructor ()
      ensures Valid() && fresh(Repr) && Model() == Empty
    {
      root := null;
      Repr := {this};
    }

    /** insert: a duplicate is reported and nothing changes; otherwise the
        key joins the key set. The tree stays a valid AVL search tree. */
    method Insert(k: int) returns (code: ErrorCode)
      requires Valid()
      modifies Repr
      ensures Valid() && fresh(Repr - old(Repr))
      ensures Model() == I.AvlInsert(old(Model()), k).tree
      ensures code == I.AvlInsert(old(Model()), k).code
      ensures code == DuplicateError <==> k in Keys(old(Model()))
      ensures code == DuplicateError ==> Model() == old(Model())
      ensures Keys(Model()) == Keys(old(Model())) + {k}
    {
      var taller;
      root, code, taller := HI.AvlInsert(root, k);
      Repr := Repr + root.Repr;
    }

    /** remove: an absent key is reported and nothing changes; otherwise the
        key leaves the key set. The tree stays a valid AVL search tree. */
    method Remove(k: int) returns (code: ErrorCode)
      requires Valid()
      modifies Repr
      ensures Valid() && Repr == old(Repr)
      ensures Model() == D.AvlDelete(old(Model()), k).tree
      ensures code == D.AvlDelete(old(Model()), k).code
      ensures code == NotPresent <==> k !in Keys(old(Model()))
      ensures code == NotPresent ==> Model() == old(Model())
      ensures Keys(Model()) == Keys(old(Model())) - {k}
    {
      var shorter;
      root, code, shorter := HD.AvlDelete(root, k);
    }
  }
}
