/**
  The AVL index of events (`AVLTree` in AVLTree.h), as an immutable tree.

  Each node caches its height as the C++ `AVLNode::height` does, with the
  height of an empty subtree being -1 and of a leaf 0.  The pointer
  rewiring of the rotations becomes the construction of new nodes; every
  rotation recomputes exactly the cached heights the C++ code recomputes,
  from the cached heights of the children.
 */
module AvlTree {
  import opened Events

  datatype Tree = Nil | Node(left: Tree, ev: Event, right: Tree, h: int)

  function Max(a: int, b: int): int {
    if a >= b then a else b
  }

  /** `AVLTree::height`: the cached height, -1 for an empty subtree. */
  function Height(t: Tree): int {
    if t.Nil? then -1 else t.h
  }

  /** The events of the tree, left to right. */
  function InOrder(t: Tree): seq<Event> {
    match t
    case Nil => []
    case Node(l, x, r, _) => InOrder(l) + [x] + InOrder(r)
  }

  /** The length of the longest root-to-leaf path, counted in edges (-1 when empty). */
  function TrueHeight(t: Tree): (r: int)
    ensures r >= -1
    ensures t.Node? ==> r >= 0
  {
    match t
    case Nil => -1
    case Node(l, _, rt, _) => Max(TrueHeight(l), TrueHeight(rt)) + 1
  }

  /** Every cached height is one more than the larger cached height of the children. */
  ghost predicate HeightsOk(t: Tree) {
    match t
    case Nil => true
    case Node(l, _, r, h) => HeightsOk(l) && HeightsOk(r) && h == Max(Height(l), Height(r)) + 1
  }

  /** The AVL balance bound at every node, on cached heights. */
  ghost predicate Balanced(t: Tree) {
    match t
    case Nil => true
    case Node(l, _, r, _) => Balanced(l) && Balanced(r) && -1 <= Height(l) - Height(r) <= 1
  }

  ghost predicate Avl(t: Tree) {
    HeightsOk(t) && Balanced(t)
  }

  /** Correct cached heights are the real heights. */
  lemma {:induction false} CachedHeightIsTrue(t: Tree)
    requires HeightsOk(t)
    ensures Height(t) == TrueHeight(t)
    ensures Height(t) >= -1 && (t.Node? ==> Height(t) >= 0)
  {
    if t.Node? {
      CachedHeightIsTrue(t.left);
      CachedHeightIsTrue(t.right);
    }
  }

  /** Recompute a node's cached height from its children's cached heights. */
  function Refresh(t: Tree): (r: Tree)
    requires t.Node?
    ensures r.Node? && r.left == t.left && r.ev == t.ev && r.right == t.right
    ensures InOrder(r) == InOrder(t)
    ensures HeightsOk(t.left) && HeightsOk(t.right) ==> HeightsOk(r)
    ensures HeightsOk(t) ==> r == t
  {
    Node(t.left, t.ev, t.right, Max(Height(t.left), Height(t.right)) + 1)
  }

  /** `rotateWithLeftChild`: the left child becomes the root. */
  function RotateWithLeftChild(k2: Tree): (r: Tree)
    requires k2.Node? && k2.left.Node?
    ensures r.Node? && r.right.Node?
    ensures r.ev == k2.left.ev && r.right.ev == k2.ev
    ensures InOrder(r) == InOrder(k2)
    ensures HeightsOk(k2.left) && HeightsOk(k2.right) ==> HeightsOk(r)
  {
    var k1 := k2.left;
    var k2' := Node(k1.right, k2.ev, k2.right, Max(Height(k1.right), Height(k2.right)) + 1);
    Node(k1.left, k1.ev, k2', Max(Height(k1.left), k2'.h) + 1)
  }

  /** `rotateWithRightChild`: the right child becomes the root. */
  function RotateWithRightChild(k1: Tree): (r: Tree)
    requires k1.Node? && k1.right.Node?
    ensures r.Node? && r.left.Node?
    ensures r.ev == k1.right.ev && r.left.ev == k1.ev
    ensures InOrder(r) == InOrder(k1)
    ensures HeightsOk(k1.left) && HeightsOk(k1.right) ==> HeightsOk(r)
  {
    var k2 := k1.right;
    var k1' := Node(k1.left, k1.ev, k2.left, Max(Height(k1.left), Height(k2.left)) + 1);
    Node(k1', k2.ev, k2.right, Max(Height(k2.right), k1'.h) + 1)
  }

  /** `doubleWithLeftChild`: the left child's right child becomes the root. */
  function DoubleWithLeftChild(k3: Tree): (r: Tree)
    requires k3.Node? && k3.left.Node? && k3.left.right.Node?
    ensures r.Node? && r.ev == k3.left.right.ev
    ensures InOrder(r) == InOrder(k3)
    ensures HeightsOk(k3.left) && HeightsOk(k3.right) ==> HeightsOk(r)
  {
    RotateWithLeftChild(k3.(left := RotateWithRightChild(k3.left)))
  }

  /** `doubleWithRightChild`: the right child's left child becomes the root. */
  function DoubleWithRightChild(k1: Tree): (r: Tree)
    requires k1.Node? && k1.right.Node? && k1.right.left.Node?
    ensures r.Node? && r.ev == k1.right.left.ev
    ensures InOrder(r) == InOrder(k1)
    ensures HeightsOk(k1.left) && HeightsOk(k1.right) ==> HeightsOk(r)
  {
    RotateWithRightChild(k1.(right := RotateWithLeftChild(k1.right)))
  }

  /**
    A single rotation repairs a node whose left side is two higher than its
    right and whose left-left grandchild is at least as high as the
    left-right one.
   */
  lemma RotateLeftChildAvl(t: Tree)
    requires t.Node? && t.left.Node? && Avl(t.left) && Avl(t.right)
    requires Height(t.left) == Height(t.right) + 2
    requires Height(t.left.left) >= Height(t.left.right)
    ensures Avl(RotateWithLeftChild(t))
    ensures Height(RotateWithLeftChild(t)) == Height(t.left.right) + 2
  {
    CachedHeightIsTrue(t.left.right);
  }

  lemma RotateRightChildAvl(t: Tree)
    requires t.Node? && t.right.Node? && Avl(t.left) && Avl(t.right)
    requires Height(t.right) == Height(t.left) + 2
    requires Height(t.right.right) >= Height(t.right.left)
    ensures Avl(RotateWithRightChild(t))
    ensures Height(RotateWithRightChild(t)) == Height(t.right.left) + 2
  {
    CachedHeightIsTrue(t.right.left);
  }

  /**
    A double rotation repairs a node whose left side is two higher than its
    right and whose left-right grandchild is the higher one.
   */
  lemma DoubleLeftChildAvl(t: Tree)
    requires t.Node? && t.left.Node? && Avl(t.left) && Avl(t.right)
    requires Height(t.left) == Height(t.right) + 2
    requires Height(t.left.left) < Height(t.left.right)
    ensures t.left.right.Node?
    ensures Avl(DoubleWithLeftChild(t))
    ensures Height(DoubleWithLeftChild(t)) == Height(t.left)
  {
    CachedHeightIsTrue(t.left.left);
    var c := t.left.right;
    assert c.Node? && HeightsOk(c) && Balanced(c);
    CachedHeightIsTrue(c.left);
    CachedHeightIsTrue(c.right);
  }

  lemma DoubleRightChildAvl(t: Tree)
    requires t.Node? && t.right.Node? && Avl(t.left) && Avl(t.right)
    requires Height(t.right) == Height(t.left) + 2
    requires Height(t.right.right) < Height(t.right.left)
    ensures t.right.left.Node?
    ensures Avl(DoubleWithRightChild(t))
    ensures Height(DoubleWithRightChild(t)) == Height(t.right)
  {
    CachedHeightIsTrue(t.right.right);
    var c := t.right.left;
    assert c.Node? && HeightsOk(c) && Balanced(c);
    CachedHeightIsTrue(c.left);
    CachedHeightIsTrue(c.right);
  }

  /**
    What `insert` promises about its result `r` for the subtree `t`: the AVL
    invariant, and the height facts the rebalancing of the parent relies
    on.  The height grows by at most one, and when it grows the root is
    unchanged and leans towards the side the new event went to.
   */
  ghost predicate InsertedInto(e: Event, t: Tree, r: Tree) {
    && Avl(r) && r.Node?
    && Height(t) <= Height(r) <= Height(t) + 1
    && (Height(r) == Height(t) + 1 && t.Node? ==>
      && r.ev == t.ev
      && (Less(e, t.ev) || Less(t.ev, e))
      && (Less(e, t.ev) ==> Height(r.left) == Height(r.right) + 1)
      && (Less(t.ev, e) ==> Height(r.right) == Height(r.left) + 1))
  }

  /**
    `AVLTree::insert`.  An event whose key is already present leaves the
    contents alone.  On the way back up, a node whose inserted side became
    two higher is rotated once when the new event went to the outer
    grandchild and twice when it went to the inner one.
   */
  function Insert(e: Event, t: Tree): (r: Tree)
    requires Avl(t)
    ensures InsertedInto(e, t, r)
    decreases t
  {
    match t
    case Nil => Node(Nil, e, Nil, 0)
    case Node(l, x, rt, h) =>
      if Less(e, x) then
        InsertedLeft(e, t, Insert(e, l))
      else if Greater(e, x) then
        InsertedRight(e, t, Insert(e, rt))
      else
        Refresh(t)
  }

  /** The part of `insert` after the event went into the left subtree. */
  function InsertedLeft(e: Event, t: Tree, l': Tree): (r: Tree)
    requires t.Node? && Avl(t) && Less(e, t.ev)
    requires InsertedInto(e, t.left, l')
    ensures InsertedInto(e, t, r)
    ensures InOrder(r) == InOrder(l') + [t.ev] + InOrder(t.right)
  {
    LessAsymmetric(e, t.ev);
    CachedHeightIsTrue(t.left);
    CachedHeightIsTrue(t.right);
    var t1 := Node(l', t.ev, t.right, t.h);
    if Height(l') - Height(t.right) == 2 then
      if Less(e, l'.ev) then
        RotateLeftChildAvl(t1);
        Refresh(RotateWithLeftChild(t1))
      else
        CachedHeightIsTrue(l'.left);
        DoubleLeftChildAvl(t1);
        Refresh(DoubleWithLeftChild(t1))
    else
      Refresh(t1)
  }

  /** The part of `insert` after the event went into the right subtree. */
  function InsertedRight(e: Event, t: Tree, r': Tree): (r: Tree)
    requires t.Node? && Avl(t) && Greater(e, t.ev)
    requires InsertedInto(e, t.right, r')
    ensures InsertedInto(e, t, r)
    ensures InOrder(r) == InOrder(t.left) + [t.ev] + InOrder(r')
  {
    LessAsymmetric(t.ev, e);
    CachedHeightIsTrue(t.left);
    CachedHeightIsTrue(t.right);
    var t1 := Node(t.left, t.ev, r', t.h);
    if Height(r') - Height(t.left) == 2 then
      if Greater(e, r'.ev) then
        RotateRightChildAvl(t1);
        Refresh(RotateWithRightChild(t1))
      else
        CachedHeightIsTrue(r'.right);
        DoubleRightChildAvl(t1);
        Refresh(DoubleWithRightChild(t1))
    else
      Refresh(t1)
  }

  /**
    `AVLTree::balance`: rotate a node whose children's cached heights differ
    by more than one, choosing the single rotation when the outer grandchild
    is at least as high as the inner one, then recompute the node's height.
   */
  function Balance(t: Tree): (r: Tree)
    requires t.Node? ==> HeightsOk(t.left) && HeightsOk(t.right)
    ensures t.Nil? <==> r.Nil?
    ensures InOrder(r) == InOrder(t)
    ensures HeightsOk(r)
  {
    if t.Nil? then Nil
    else
      CachedHeightIsTrue(t.left);
      CachedHeightIsTrue(t.right);
      if Height(t.left) - Height(t.right) > 1 then
        CachedHeightIsTrue(t.left.left);
        if Height(t.left.left) >= Height(t.left.right) then
          Refresh(RotateWithLeftChild(t))
        else
          Refresh(DoubleWithLeftChild(t))
      else if Height(t.right) - Height(t.left) > 1 then
        CachedHeightIsTrue(t.right.right);
        if Height(t.right.right) >= Height(t.right.left) then
          Refresh(RotateWithRightChild(t))
        else
          Refresh(DoubleWithRightChild(t))
      else
        Refresh(t)
  }

  /**
    Balancing a node whose children are AVL trees with heights at most two
    apart yields an AVL tree no lower than its higher child and at most one
    above it; without a rotation it is exactly one above.
   */
  lemma BalanceAvl(t: Tree)
    requires t.Node? && Avl(t.left) && Avl(t.right)
    requires -2 <= Height(t.left) - Height(t.right) <= 2
    ensures Avl(Balance(t))
    ensures Max(Height(t.left), Height(t.right)) <= Height(Balance(t)) <= Max(Height(t.left), Height(t.right)) + 1
    ensures -1 <= Height(t.left) - Height(t.right) <= 1 ==>
      Height(Balance(t)) == Max(Height(t.left), Height(t.right)) + 1
  {
    CachedHeightIsTrue(t.left);
    CachedHeightIsTrue(t.right);
    if Height(t.left) - Height(t.right) > 1 {
      CachedHeightIsTrue(t.left.left);
      CachedHeightIsTrue(t.left.right);
      if Height(t.left.left) >= Height(t.left.right) {
        RotateLeftChildAvl(t);
      } else {
        DoubleLeftChildAvl(t);
      }
    } else if Height(t.right) - Height(t.left) > 1 {
      CachedHeightIsTrue(t.right.right);
      CachedHeightIsTrue(t.right.left);
      if Height(t.right.right) >= Height(t.right.left) {
        RotateRightChildAvl(t);
      } else {
        DoubleRightChildAvl(t);
      }
    }
  }

  /** Balancing a tree that is already AVL changes nothing. */
  lemma BalanceOfAvl(t: Tree)
    requires Avl(t)
    ensures Balance(t) == t
  {
  }

  /**
    `AVLTree::findMin`: the leftmost node of the subtree, or the empty tree
    when the subtree is empty.  Its event is the first one in order.
   */
  function FindMin(t: Tree): (r: Tree)
    ensures r.Nil? <==> t.Nil?
    ensures r.Node? ==> r.left.Nil? && r.ev == InOrder(t)[0]
  {
    if t.Nil? then Nil
    else if t.left.Nil? then t
    else FindMin(t.left)
  }

  /**
    `AVLTree::remove(int id)`.  The descent compares `id` with the ids of
    the nodes, although the tree is ordered by key, not by id.  A matched
    node with two children takes the event of the leftmost node of its
    right subtree, and that event's id is then removed from the right
    subtree by the same id-guided descent; a matched node with at most one
    child is replaced by that child.  Every node on the path is balanced.

    The contract: an empty tree stays empty, no node is gained, every event
    left was in the tree before, and the cached heights stay correct.
   */
  function Remove(id: int, t: Tree): (r: Tree)
    requires HeightsOk(t)
    ensures t.Nil? ==> r.Nil?
    ensures |InOrder(r)| <= |InOrder(t)|
    ensures forall x :: x in InOrder(r) ==> x in InOrder(t)
    ensures HeightsOk(r)
    decreases t
  {
    match t
    case Nil => Nil
    case Node(l, x, rt, h) =>
      if id < x.id then
        Balance(Node(Remove(id, l), x, rt, h))
      else if id > x.id then
        Balance(Node(l, x, Remove(id, rt), h))
      else if l.Node? && rt.Node? then
        var m := FindMin(rt).ev;
        Balance(Node(l, m, Remove(m.id, rt), h))
      else
        Balance(if l.Node? then l else rt)
  }

  /**
    Removal keeps the AVL invariant, and the height drops by at most one,
    whether or not a node with the id was found.
   */
  lemma {:induction false} RemoveAvl(id: int, t: Tree)
    requires Avl(t)
    ensures Avl(Remove(id, t))
    ensures Height(t) - 1 <= Height(Remove(id, t)) <= Height(t)
    decreases t
  {
    match t
    case Nil =>
    case Node(l, x, rt, h) =>
      CachedHeightIsTrue(l);
      CachedHeightIsTrue(rt);
      if id < x.id {
        RemoveAvl(id, l);
        BalanceAvl(Node(Remove(id, l), x, rt, h));
      } else if id > x.id {
        RemoveAvl(id, rt);
        BalanceAvl(Node(l, x, Remove(id, rt), h));
      } else if l.Node? && rt.Node? {
        var m := FindMin(rt).ev;
        RemoveAvl(m.id, rt);
        BalanceAvl(Node(l, m, Remove(m.id, rt), h));
      } else {
        BalanceOfAvl(if l.Node? then l else rt);
      }
  }

  /** A matched node with at most one child is replaced by that child. */
  lemma RemoveMatchedWithOneChild(id: int, t: Tree)
    requires Avl(t) && t.Node? && t.ev.id == id
    requires t.left.Nil? || t.right.Nil?
    ensures Remove(id, t) == (if t.left.Node? then t.left else t.right)
  {
    BalanceOfAvl(if t.left.Node? then t.left else t.right);
  }

  /** Same date and overlapping intervals: the test `detectConflicts` applies to each stored event. */
  predicate Conflicts(e: Event, s: Event) {
    e.date == s.date && Overlaps(e, s)
  }

  /**
    `AVLTree::detectConflicts`: a full traversal, not pruned by the key,
    that reports whether any stored event conflicts with `e`.
   */
  function DetectConflicts(e: Event, t: Tree): (r: bool)
    ensures r <==> exists s :: s in InOrder(t) && Conflicts(e, s)
  {
    match t
    case Nil => false
    case Node(l, x, rt, _) =>
      if Conflicts(e, x) then true
      else DetectConflicts(e, l) || DetectConflicts(e, rt)
  }
}
