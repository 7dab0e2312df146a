/** The value view of an AVL subtree: a node holds a key (the int Record
    the driver instantiates), two owned children and a balance tag, which is
    what the node accessors get_balance/set_balance expose. */
module AvlModel {

  datatype Balance = LeftHigher | EqualHeight | RightHigher

  datatype Tree = Empty | Node(data: int, left: Tree, right: Tree, bal: Balance)

  /** The tree's outcome codes (Error_code); only these three occur in the engine. */
  datatype ErrorCode = Success | DuplicateError | NotPresent

  /** A freshly allocated node: one key, no children, equal_height. */
  function Leaf(k: int): Tree {
    Node(k, Empty, Empty, EqualHeight)
  }

  function Max(a: int, b: int): int { if a < b then b else a }

  function Height(t: Tree): nat {
    match t
    case Empty => 0
    case Node(_, l, r, _) => 1 + Max(Height(l), Height(r))
  }

  function Keys(t: Tree): set<int> {
    match t
    case Empty => {}
    case Node(d, l, r, _) => Keys(l) + {d} + Keys(r)
  }

  /** The in-order key sequence, the order a traversal reports keys in. */
  function InOrder(t: Tree): seq<int> {
    match t
    case Empty => []
    case Node(d, l, r, _) => InOrder(l) + [d] + InOrder(r)
  }

  /** The tag that states the sign of height(l) - height(r). */
  function TagOf(hl: int, hr: int): Balance {
    if hl > hr then LeftHigher else if hl < hr then RightHigher else EqualHeight
  }

  /** BST order: every key of the left subtree is below the node's key,
      every key of the right subtree above it. */
  predicate Ordered(t: Tree) {
    match t
    case Empty => true
    case Node(d, l, r, _) =>
      Ordered(l) && Ordered(r) &&
      (forall k :: k in Keys(l) ==> k < d) &&
      (forall k :: k in Keys(r) ==> d < k)
  }

  /** AVL balance and tag correctness: at every node the heights of the two
      subtrees differ by at most one and the tag is the sign of the difference. */
  predicate Balanced(t: Tree) {
    match t
    case Empty => true
    case Node(_, l, r, b) =>
      Balanced(l) && Balanced(r) &&
      -1 <= Height(l) - Height(r) <= 1 &&
      b == TagOf(Height(l), Height(r))
  }

  /** The invariant of every subtree of an AVL_tree. */
  predicate Valid(t: Tree) {
    Ordered(t) && Balanced(t)
  }

  predicate StrictlyIncreasing(s: seq<int>) {
    forall i, j :: 0 <= i < j < |s| ==> s[i] < s[j]
  }

  /** The in-order sequence lists exactly the key set. */
  lemma {:induction false} InOrderKeys(t: Tree)
    ensures forall x :: x in InOrder(t) <==> x in Keys(t)
  {
    match t
    case Empty =>
    case Node(d, l, r, _) =>
      InOrderKeys(l);
      InOrderKeys(r);
  }

  /** A concatenation around a pivot is strictly increasing exactly when both
      parts are and every element of the first is below the pivot and every
      element of the second above it. */
  lemma SplitSorted(a: seq<int>, d: int, b: seq<int>)
    ensures StrictlyIncreasing(a + [d] + b) <==>
      StrictlyIncreasing(a) && StrictlyIncreasing(b) &&
      (forall x :: x in a ==> x < d) && (forall x :: x in b ==> d < x)
  {
    var s := a + [d] + b;
    if StrictlyIncreasing(s) {
      SortedParts(a, d, b);
    }
    if StrictlyIncreasing(a) && StrictlyIncreasing(b) &&
       (forall x :: x in a ==> x < d) && (forall x :: x in b ==> d < x) {
      SortedJoin(a, d, b);
    }
  }

  lemma SortedParts(a: seq<int>, d: int, b: seq<int>)
    requires StrictlyIncreasing(a + [d] + b)
    ensures StrictlyIncreasing(a) && StrictlyIncreasing(b)
    ensures forall x :: x in a ==> x < d
    ensures forall x :: x in b ==> d < x
  {
    var s := a + [d] + b;
    assert forall i :: 0 <= i < |a| ==> s[i] == a[i];
    assert s[|a|] == d;
    assert forall i :: 0 <= i < |b| ==> s[|a| + 1 + i] == b[i];
    forall i, j | 0 <= i < j < |b| ensures b[i] < b[j] {
      assert s[|a| + 1 + i] < s[|a| + 1 + j];
    }
    forall x | x in a ensures x < d {
      var i :| 0 <= i < |a| && a[i] == x;
      assert s[i] < s[|a|];
    }
    forall x | x in b ensures d < x {
      var i :| 0 <= i < |b| && b[i] == x;
      assert s[|a|] < s[|a| + 1 + i];
    }
  }

  lemma SortedJoin(a: seq<int>, d: int, b: seq<int>)
    requires StrictlyIncreasing(a) && StrictlyIncreasing(b)
    requires forall x :: x in a ==> x < d
    requires forall x :: x in b ==> d < x
    ensures StrictlyIncreasing(a + [d] + b)
  {
    var s := a + [d] + b;
    forall i, j | 0 <= i < j < |s| ensures s[i] < s[j] {
      if j < |a| {
        assert s[i] == a[i] && s[j] == a[j];
      } else if i < |a| {
        assert s[i] == a[i] && a[i] in a;
        if j > |a| { assert s[j] == b[j - |a| - 1] && b[j - |a| - 1] in b; }
      } else if i == |a| {
        assert s[j] == b[j - |a| - 1] && b[j - |a| - 1] in b;
      } else {
        assert s[i] == b[i - |a| - 1] && s[j] == b[j - |a| - 1];
      }
    }
  }

  /** The set-based BST order and "the in-order sequence is strictly
      increasing" are the same property. */
  lemma {:induction false} OrderedIffSorted(t: Tree)
    ensures Ordered(t) <==> StrictlyIncreasing(InOrder(t))
  {
    match t
    case Empty =>
    case Node(d, l, r, _) =>
      OrderedIffSorted(l);
      OrderedIffSorted(r);
      InOrderKeys(l);
      InOrderKeys(r);
      SplitSorted(InOrder(l), d, InOrder(r));
  }

  /** Two trees with the same in-order sequence hold the same keys, and one is
      a BST exactly when the other is: what a rotation needs to keep. */
  lemma SameInOrder(t: Tree, u: Tree)
    requires InOrder(t) == InOrder(u)
    ensures Keys(t) == Keys(u)
    ensures Ordered(t) <==> Ordered(u)
  {
    InOrderKeys(t);
    InOrderKeys(u);
    forall x ensures x in Keys(t) <==> x in Keys(u) {
      assert x in InOrder(t) <==> x in InOrder(u);
    }
    OrderedIffSorted(t);
    OrderedIffSorted(u);
  }

  function Size(t: Tree): nat {
    match t
    case Empty => 0
    case Node(_, l, r, _) => Size(l) + 1 + Size(r)
  }

  /** The fewest nodes a balanced subtree of height h can hold. */
  function MinSize(h: nat): nat {
    if h == 0 then 0 else if h == 1 then 1 else 1 + MinSize(h - 1) + MinSize(h - 2)
  }

  function Pow2(n: nat): nat {
    if n == 0 then 1 else 2 * Pow2(n - 1)
  }

  lemma {:induction false} MinSizeMonotone(a: nat, b: nat)
    requires a <= b
    ensures MinSize(a) <= MinSize(b)
    decreases b
  {
    if a < b {
      MinSizeMonotone(a, b - 1);
    }
  }

  /** Why the balance condition matters: a balanced subtree of height h has
      at least MinSize(h) nodes. */
  lemma {:induction false} SizeBound(t: Tree)
    requires Balanced(t)
    ensures MinSize(Height(t)) <= Size(t)
  {
    match t
    case Empty =>
    case Node(_, l, r, _) =>
      SizeBound(l);
      SizeBound(r);
      MinSizeStep(Height(l), Height(r), Size(l), Size(r));
  }

  /** One level of SizeBound: subtrees with heights at most one apart, each
      holding at least MinSize of its height, make a node holding at least
      MinSize of the node's height. */
  lemma MinSizeStep(hl: nat, hr: nat, sl: nat, sr: nat)
    requires -1 <= hl - hr <= 1
    requires MinSize(hl) <= sl && MinSize(hr) <= sr
    ensures MinSize(1 + Max(hl, hr)) <= sl + 1 + sr
  {
    var h := 1 + Max(hl, hr);
    if h >= 2 {
      if hl >= hr {
        MinSizeMonotone(h - 2, hr);
      } else {
        MinSizeMonotone(h - 2, hl);
      }
    }
  }

  /** MinSize grows at least like 2^(h/2), so a balanced subtree of n nodes
      has height at most about 2 log2(n + 1). */
  lemma {:induction false} MinSizeGrows(h: nat)
    ensures Pow2(h / 2) <= MinSize(h) + 1
    decreases h
  {
    if h >= 2 {
      MinSizeGrows(h - 2);
      MinSizeMonotone(h - 2, h - 1);
      assert (h - 2) / 2 + 1 == h / 2;
    }
  }

  /** The logarithmic height bound of a balanced subtree. */
  lemma HeightBound(t: Tree)
    requires Balanced(t)
    ensures Pow2(Height(t) / 2) <= Size(t) + 1
  {
    SizeBound(t);
    MinSizeGrows(Height(t));
  }
}
