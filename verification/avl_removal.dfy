/**
  Removal from the AVL index by event id.

  `AVLTree::remove(int id)` steers its descent by comparing ids, but the
  tree is ordered by `(date, startTime, endTime)`, so the descent can walk
  past the node holding the id; and the in-order successor it copies into
  a matched node with two children is afterwards removed from the right
  subtree by the same id-guided descent, which can miss it and leave the
  successor stored twice.  The two lemmas below exhibit both on trees the
  class itself builds.

  `RemoveById` is the removal the callers evidently expect: find the event
  with the id by a full traversal, then delete it by key, taking the
  successor out of the right subtree structurally.
 */
module AvlRemoval {
  import opened Events
  import opened AvlTree
  import opened AvlOrder
  import opened Wrappers

  const Day: string := "2024-01-01"

  /** Inserting B then A gives a two-node tree where A (id 2) sits left of B (id 1). */
  lemma RemoveMissesStoredId()
    ensures var a := Event(2, "a", Day, "09:00", "10:00", {});
            var b := Event(1, "b", Day, "10:00", "11:00", {});
            var t := Insert(a, Insert(b, Nil));
            && Avl(t) && Bst(t)
            && a in InOrder(t)
            && a in InOrder(Remove(2, t))
  {
    var a := Event(2, "a", Day, "09:00", "10:00", {});
    var b := Event(1, "b", Day, "10:00", "11:00", {});
    assert Less(a, b);
    var t := Insert(a, Insert(b, Nil));
    assert t == Node(Node(Nil, a, Nil, 0), b, Nil, 1);
  }

  /** The four events of the second scenario: x, a, c, b with ids 5, 9, 1, 2. */
  const X: Event := Event(5, "x", Day, "10:00", "11:00", {})
  const A: Event := Event(9, "a", Day, "09:00", "10:00", {})
  const C: Event := Event(1, "c", Day, "12:00", "13:00", {})
  const B: Event := Event(2, "b", Day, "11:00", "12:00", {})

  function Leaf(e: Event): Tree {
    Node(Nil, e, Nil, 0)
  }

  /** The tree that inserting x, a, c, b builds: x at the root, b the left child of c. */
  const Built: Tree := Node(Leaf(A), X, Node(Leaf(B), C, Nil, 1), 2)

  lemma ScenarioTree()
    ensures Insert(B, Insert(C, Insert(A, Insert(X, Nil)))) == Built
  {
    var t1 := Insert(X, Nil);
    InsertA(t1);
    InsertC(Insert(A, t1));
    InsertB(Insert(C, Insert(A, t1)));
  }

  lemma InsertA(t1: Tree)
    requires t1 == Insert(X, Nil)
    ensures Insert(A, t1) == Node(Leaf(A), X, Nil, 1)
  {
    assert t1 == Leaf(X);
    assert Less(A, X);
  }

  lemma InsertC(t2: Tree)
    requires t2 == Node(Leaf(A), X, Nil, 1)
    ensures Insert(C, t2) == Node(Leaf(A), X, Leaf(C), 1)
  {
    assert Less(X, C);
    assert Insert(C, Nil) == Leaf(C);
  }

  lemma InsertB(t3: Tree)
    requires t3 == Node(Leaf(A), X, Leaf(C), 1)
    ensures Insert(B, t3) == Built
  {
    assert Less(X, B) && Less(B, C);
    assert Insert(B, Leaf(C)) == Node(Leaf(B), C, Nil, 1);
  }

  /** a, x, b, c are in strictly increasing key order. */
  lemma ScenarioOrder()
    ensures Less(A, X) && Less(A, B) && Less(A, C)
    ensures Less(X, B) && Less(X, C) && Less(B, C)
  {
    assert Less(A, X) && Less(X, B) && Less(B, C);
    LessTransitive(A, X, B);
    LessTransitive(X, B, C);
    LessTransitive(A, X, C);
  }

  lemma ScenarioTreeIsAvl()
    ensures Avl(Built)
  {
    assert Avl(Leaf(A)) && Avl(Leaf(B));
    assert Avl(Node(Leaf(B), C, Nil, 1));
  }

  lemma ScenarioTreeIsSorted()
    ensures Bst(Built) && InOrder(Built) == [A, X, B, C]
  {
    var s := InOrder(Built);
    assert s == [A, X, B, C];
    ScenarioOrder();
    forall i, j | 0 <= i < j < 4
      ensures Less(s[i], s[j])
    {
    }
  }

  lemma ScenarioTreeIsAvlSearchTree()
    ensures Avl(Built) && Bst(Built) && InOrder(Built) == [A, X, B, C]
  {
    ScenarioTreeIsAvl();
    ScenarioTreeIsSorted();
  }

  /** Removing id 5: b replaces x, and the descent for id 2 below c misses b. */
  lemma ScenarioRemove()
    ensures Remove(5, Built) == Node(Leaf(A), B, Node(Leaf(B), C, Nil, 1), 2)
  {
    var cb := Node(Leaf(B), C, Nil, 1);
    assert Remove(2, cb) == Balance(Node(Leaf(B), C, Nil, 1));
    assert Remove(2, cb) == cb;
    assert FindMin(cb).ev == B;
  }

  /**
    Removing id 5 from that tree copies b into the root, then looks for id 2
    in c's subtree, goes right at c (id 1), and finds nothing: b is stored
    twice and the in-order sequence is no longer strictly sorted.
   */
  lemma RemoveDuplicatesSuccessor()
    ensures Avl(Built) && Bst(Built) && InOrder(Built) == [A, X, B, C]
    ensures InOrder(Remove(5, Built)) == [A, B, B, C]
    ensures !Bst(Remove(5, Built))
  {
    ScenarioTreeIsAvlSearchTree();
    ScenarioRemove();
    var s' := InOrder(Remove(5, Built));
    assert s' == [A, B, B, C];
    LessIrreflexive(B);
    assert !Less(s'[1], s'[2]);
  }

  /** The sequence without the events whose key is that of `k`. */
  function WithoutKey(s: seq<Event>, k: Event): (r: seq<Event>)
    ensures forall x :: x in r <==> x in s && !SameKey(x, k)
    ensures |r| <= |s|
  {
    if |s| == 0 then []
    else if SameKey(s[0], k) then WithoutKey(s[1..], k)
    else [s[0]] + WithoutKey(s[1..], k)
  }

  lemma {:induction false} WithoutKeyAppend(a: seq<Event>, b: seq<Event>, k: Event)
    ensures WithoutKey(a + b, k) == WithoutKey(a, k) + WithoutKey(b, k)
    decreases |a|
  {
    if |a| == 0 {
      assert a + b == b;
    } else {
      assert (a + b)[0] == a[0] && (a + b)[1..] == a[1..] + b;
      WithoutKeyAppend(a[1..], b, k);
    }
  }

  /** Removing the keys of `k` from a sequence holding none of them changes nothing. */
  lemma {:induction false} WithoutKeyAbsent(s: seq<Event>, k: Event)
    requires forall x :: x in s ==> !SameKey(x, k)
    ensures WithoutKey(s, k) == s
    decreases |s|
  {
    if |s| > 0 {
      assert s[0] in s;
      assert forall x :: x in s[1..] ==> x in s;
      WithoutKeyAbsent(s[1..], k);
      assert s == [s[0]] + s[1..];
    }
  }

  /** Dropping elements keeps a sequence strictly sorted. */
  lemma {:induction false} WithoutKeySorted(s: seq<Event>, k: Event)
    requires StrictlySorted(s)
    ensures StrictlySorted(WithoutKey(s, k))
    decreases |s|
  {
    if |s| > 0 {
      SortedTail(s);
      WithoutKeySorted(s[1..], k);
      if !SameKey(s[0], k) {
        var w := WithoutKey(s[1..], k);
        var r := [s[0]] + w;
        forall i, j | 0 <= i < j < |r|
          ensures Less(r[i], r[j])
        {
          if i == 0 {
            assert r[j] == w[j - 1] && w[j - 1] in w;
          }
        }
      }
    }
  }

  /** Removal of the leftmost node, taken off structurally. */
  function RemoveMin(t: Tree): (r: Tree)
    requires t.Node? && HeightsOk(t)
    ensures HeightsOk(r)
    ensures InOrder(r) == InOrder(t)[1..]
  {
    if t.left.Nil? then t.right
    else
      var l' := RemoveMin(t.left);
      assert InOrder(t)[1..] == InOrder(l') + [t.ev] + InOrder(t.right);
      Balance(Node(l', t.ev, t.right, t.h))
  }

  lemma {:induction false} RemoveMinAvl(t: Tree)
    requires t.Node? && Avl(t)
    ensures Avl(RemoveMin(t))
    ensures Height(t) - 1 <= Height(RemoveMin(t)) <= Height(t)
    decreases t
  {
    CachedHeightIsTrue(t.left);
    CachedHeightIsTrue(t.right);
    if t.left.Node? {
      RemoveMinAvl(t.left);
      BalanceAvl(Node(RemoveMin(t.left), t.ev, t.right, t.h));
    }
  }

  /**
    Removal by key: the descent compares keys, and a matched node with two
    children takes its successor's event while the successor's node is
    taken off the right subtree.
   */
  function RemoveKey(k: Event, t: Tree): (r: Tree)
    requires HeightsOk(t)
    ensures HeightsOk(r)
    ensures InOrder(r) == InOrder(t) || |InOrder(r)| < |InOrder(t)|
    decreases t
  {
    match t
    case Nil => Nil
    case Node(l, x, rt, h) =>
      if Less(k, x) then
        Balance(Node(RemoveKey(k, l), x, rt, h))
      else if Greater(k, x) then
        Balance(Node(l, x, RemoveKey(k, rt), h))
      else if l.Node? && rt.Node? then
        Balance(Node(l, FindMin(rt).ev, RemoveMin(rt), h))
      else
        if l.Node? then l else rt
  }

  /** On a search tree, removal by key drops exactly the event with that key. */
  lemma {:induction false} RemoveKeyInOrder(k: Event, t: Tree)
    requires HeightsOk(t) && Bst(t)
    ensures InOrder(RemoveKey(k, t)) == WithoutKey(InOrder(t), k)
    decreases t
  {
    if t.Node? {
      BstNode(t);
      if Less(k, t.ev) {
        RemoveKeyInOrder(k, t.left);
        RemoveKeyBelow(k, t);
      } else if Greater(k, t.ev) {
        RemoveKeyInOrder(k, t.right);
        RemoveKeyAbove(k, t);
      } else {
        RemoveKeyAt(k, t);
      }
    }
  }

  /** `WithoutKey` on the in-order sequence of a node, piece by piece. */
  lemma WithoutKeyNode(k: Event, t: Tree)
    requires t.Node?
    ensures WithoutKey(InOrder(t), k)
         == WithoutKey(InOrder(t.left), k) + WithoutKey([t.ev], k) + WithoutKey(InOrder(t.right), k)
  {
    var a, b := InOrder(t.left), InOrder(t.right);
    assert InOrder(t) == a + [t.ev] + b;
    WithoutKeyAppend(a + [t.ev], b, k);
    WithoutKeyAppend(a, [t.ev], k);
  }

  lemma RemoveKeyBelow(k: Event, t: Tree)
    requires t.Node? && HeightsOk(t) && Bst(t) && Less(k, t.ev)
    requires InOrder(RemoveKey(k, t.left)) == WithoutKey(InOrder(t.left), k)
    ensures InOrder(RemoveKey(k, t)) == WithoutKey(InOrder(t), k)
  {
    var r := Node(RemoveKey(k, t.left), t.ev, t.right, t.h);
    assert RemoveKey(k, t) == Balance(r);
    assert InOrder(Balance(r)) == InOrder(r) == InOrder(RemoveKey(k, t.left)) + [t.ev] + InOrder(t.right);
    WithoutKeyNode(k, t);
    KeyBelowRoot(k, t);
  }

  lemma RemoveKeyAbove(k: Event, t: Tree)
    requires t.Node? && HeightsOk(t) && Bst(t) && Less(t.ev, k)
    requires InOrder(RemoveKey(k, t.right)) == WithoutKey(InOrder(t.right), k)
    ensures InOrder(RemoveKey(k, t)) == WithoutKey(InOrder(t), k)
  {
    LessAsymmetric(t.ev, k);
    var r := Node(t.left, t.ev, RemoveKey(k, t.right), t.h);
    assert RemoveKey(k, t) == Balance(r);
    assert InOrder(Balance(r)) == InOrder(r) == InOrder(t.left) + [t.ev] + InOrder(RemoveKey(k, t.right));
    WithoutKeyNode(k, t);
    KeyAboveRoot(k, t);
  }

  lemma RemoveKeyAt(k: Event, t: Tree)
    requires t.Node? && HeightsOk(t) && Bst(t) && !Less(k, t.ev) && !Less(t.ev, k)
    ensures InOrder(RemoveKey(k, t)) == WithoutKey(InOrder(t), k)
  {
    WithoutKeyNode(k, t);
    KeyAtRoot(k, t);
    RemoveKeyMatched(k, t);
  }

  /** A matched node gives way to its children's events, in order. */
  lemma RemoveKeyMatched(k: Event, t: Tree)
    requires t.Node? && HeightsOk(t) && !Less(k, t.ev) && !Less(t.ev, k)
    ensures InOrder(RemoveKey(k, t)) == InOrder(t.left) + InOrder(t.right)
  {
    var a, b := InOrder(t.left), InOrder(t.right);
    if t.left.Node? && t.right.Node? {
      var r := Node(t.left, FindMin(t.right).ev, RemoveMin(t.right), t.h);
      assert RemoveKey(k, t) == Balance(r);
      assert InOrder(r) == a + [b[0]] + b[1..];
      assert b == [b[0]] + b[1..];
    } else if t.left.Node? {
      assert RemoveKey(k, t) == t.left && b == [];
    } else {
      assert RemoveKey(k, t) == t.right && a == [];
    }
  }

  lemma KeyBelowRoot(k: Event, t: Tree)
    requires t.Node? && Bst(t) && Less(k, t.ev)
    ensures WithoutKey([t.ev], k) == [t.ev]
    ensures WithoutKey(InOrder(t.right), k) == InOrder(t.right)
  {
    BstNode(t);
    Trichotomy(k, t.ev);
    forall y | y in InOrder(t.right)
      ensures !SameKey(y, k)
    {
      LessTransitive(k, t.ev, y);
      Trichotomy(k, y);
    }
    WithoutKeyAbsent(InOrder(t.right), k);
  }

  lemma KeyAboveRoot(k: Event, t: Tree)
    requires t.Node? && Bst(t) && Less(t.ev, k)
    ensures WithoutKey([t.ev], k) == [t.ev]
    ensures WithoutKey(InOrder(t.left), k) == InOrder(t.left)
  {
    BstNode(t);
    Trichotomy(t.ev, k);
    forall y | y in InOrder(t.left)
      ensures !SameKey(y, k)
    {
      LessTransitive(y, t.ev, k);
      Trichotomy(y, k);
    }
    WithoutKeyAbsent(InOrder(t.left), k);
  }

  lemma KeyAtRoot(k: Event, t: Tree)
    requires t.Node? && Bst(t) && !Less(k, t.ev) && !Less(t.ev, k)
    ensures WithoutKey([t.ev], k) == []
    ensures WithoutKey(InOrder(t.left), k) == InOrder(t.left)
    ensures WithoutKey(InOrder(t.right), k) == InOrder(t.right)
  {
    BstNode(t);
    Trichotomy(k, t.ev);
    forall y | y in InOrder(t.left)
      ensures !SameKey(y, k)
    {
      Trichotomy(y, t.ev);
    }
    forall y | y in InOrder(t.right)
      ensures !SameKey(y, k)
    {
      Trichotomy(t.ev, y);
    }
    WithoutKeyAbsent(InOrder(t.left), k);
    WithoutKeyAbsent(InOrder(t.right), k);
  }

  /** Removal by key keeps the AVL invariant and lowers the height by at most one. */
  lemma {:induction false} RemoveKeyAvl(k: Event, t: Tree)
    requires Avl(t)
    ensures Avl(RemoveKey(k, t))
    ensures Height(t) - 1 <= Height(RemoveKey(k, t)) <= Height(t)
    decreases t
  {
    match t
    case Nil =>
    case Node(l, x, rt, h) =>
      CachedHeightIsTrue(l);
      CachedHeightIsTrue(rt);
      if Less(k, x) {
        RemoveKeyAvl(k, l);
        BalanceAvl(Node(RemoveKey(k, l), x, rt, h));
      } else if Greater(k, x) {
        RemoveKeyAvl(k, rt);
        BalanceAvl(Node(l, x, RemoveKey(k, rt), h));
      } else if l.Node? && rt.Node? {
        RemoveMinAvl(rt);
        BalanceAvl(Node(l, FindMin(rt).ev, RemoveMin(rt), h));
      }
  }

  /** The first event, in order, that carries the id; a full traversal. */
  function FindById(id: int, t: Tree): (r: Option<Event>)
    ensures r.None? <==> forall x :: x in InOrder(t) ==> x.id != id
    ensures r.Some? ==> r.value in InOrder(t) && r.value.id == id
  {
    match t
    case Nil => None
    case Node(l, x, rt, _) =>
      var found := FindById(id, l);
      if found.Some? then found
      else if x.id == id then Some(x)
      else FindById(id, rt)
  }

  /** No two stored events share an id, which the id generator is meant to ensure. */
  ghost predicate UniqueIds(s: seq<Event>) {
    forall i, j :: 0 <= i < j < |s| ==> s[i].id != s[j].id
  }

  /** The removal by id that callers of `AVLTree::remove` expect. */
  function RemoveById(id: int, t: Tree): (r: Tree)
    requires HeightsOk(t)
    ensures HeightsOk(r)
  {
    match FindById(id, t)
    case None => t
    case Some(e) => RemoveKey(e, t)
  }

  /**
    On an AVL search tree with unique ids, `RemoveById` removes exactly the
    event with the id, keeps every other event in order, and keeps both
    invariants.
   */
  lemma RemoveByIdCorrect(id: int, t: Tree)
    requires Avl(t) && Bst(t) && UniqueIds(InOrder(t))
    ensures Avl(RemoveById(id, t)) && Bst(RemoveById(id, t))
    ensures forall x :: x in InOrder(RemoveById(id, t)) <==> x in InOrder(t) && x.id != id
  {
    var s := InOrder(t);
    match FindById(id, t)
    case None =>
    case Some(e) =>
      RemoveKeyInOrder(e, t);
      RemoveKeyAvl(e, t);
      WithoutKeySorted(s, e);
      forall x | x in s
        ensures SameKey(x, e) <==> x.id == id
      {
        var i :| 0 <= i < |s| && s[i] == x;
        var j :| 0 <= j < |s| && s[j] == e;
        if i != j {
          if i < j {
            assert Less(x, e) && s[i].id != s[j].id;
          } else {
            assert Less(e, x) && s[j].id != s[i].id;
          }
          Trichotomy(x, e);
        }
      }
  }
}
