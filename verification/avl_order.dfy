/**
  The search-tree side of the AVL index: the in-order sequence is strictly
  sorted by `Event::operator<`, and `insert` places a new event exactly
  where a sorted insertion into that sequence would.
 */
module AvlOrder {
  import opened Events
  import opened AvlTree

  ghost predicate StrictlySorted(s: seq<Event>) {
    forall i, j :: 0 <= i < j < |s| ==> Less(s[i], s[j])
  }

  /** The binary-search-tree invariant: the in-order sequence is strictly sorted by key. */
  ghost predicate Bst(t: Tree) {
    StrictlySorted(InOrder(t))
  }

  /** Whether some event of `s` has the same key as `e`. */
  predicate HasKey(s: seq<Event>, e: Event) {
    exists i :: 0 <= i < |s| && SameKey(s[i], e)
  }

  /**
    Reference definition of insertion into a sorted sequence: `e` goes
    before the first element above it, unless an element with its key is
    met first, in which case nothing changes.
   */
  function SortedInsert(s: seq<Event>, e: Event): seq<Event> {
    if |s| == 0 then [e]
    else if Less(e, s[0]) then [e] + s
    else if Less(s[0], e) then [s[0]] + SortedInsert(s[1..], e)
    else s
  }

  /** In a strictly sorted sequence, everything from index `i` on is above `s[i-1]`. */
  lemma SortedTail(s: seq<Event>)
    requires StrictlySorted(s) && |s| > 0
    ensures StrictlySorted(s[1..])
    ensures forall x :: x in s[1..] ==> Less(s[0], x)
  {
    forall x | x in s[1..]
      ensures Less(s[0], x)
    {
      var j :| 0 <= j < |s[1..]| && s[1..][j] == x;
      assert s[j + 1] == x;
    }
  }

  /** The pieces of a search tree are search trees, on the right sides of the root. */
  lemma BstNode(t: Tree)
    requires t.Node? && Bst(t)
    ensures Bst(t.left) && Bst(t.right)
    ensures forall y :: y in InOrder(t.left) ==> Less(y, t.ev)
    ensures forall y :: y in InOrder(t.right) ==> Less(t.ev, y)
  {
    var a, b := InOrder(t.left), InOrder(t.right);
    var s := InOrder(t);
    assert s == a + [t.ev] + b;
    forall i, j | 0 <= i < j < |a|
      ensures Less(a[i], a[j])
    {
      assert s[i] == a[i] && s[j] == a[j];
    }
    forall i, j | 0 <= i < j < |b|
      ensures Less(b[i], b[j])
    {
      assert s[|a| + 1 + i] == b[i] && s[|a| + 1 + j] == b[j];
    }
    forall y | y in a
      ensures Less(y, t.ev)
    {
      var i :| 0 <= i < |a| && a[i] == y;
      assert s[i] == y && s[|a|] == t.ev;
    }
    forall y | y in b
      ensures Less(t.ev, y)
    {
      var i :| 0 <= i < |b| && b[i] == y;
      assert s[|a| + 1 + i] == y && s[|a|] == t.ev;
    }
  }

  /** Sorted insertion into `a + b`, where `e` is below the head of `b`, only touches `a`. */
  lemma {:induction false} SortedInsertBefore(a: seq<Event>, b: seq<Event>, e: Event)
    requires |b| > 0 && Less(e, b[0])
    ensures SortedInsert(a + b, e) == SortedInsert(a, e) + b
    decreases |a|
  {
    if |a| == 0 {
      assert a + b == b;
    } else {
      assert (a + b)[0] == a[0] && (a + b)[1..] == a[1..] + b;
      SortedInsertBefore(a[1..], b, e);
    }
  }

  /** Sorted insertion into `a + b`, where every element of `a` is below `e`, only touches `b`. */
  lemma {:induction false} SortedInsertAfter(a: seq<Event>, b: seq<Event>, e: Event)
    requires forall i :: 0 <= i < |a| ==> Less(a[i], e)
    ensures SortedInsert(a + b, e) == a + SortedInsert(b, e)
    decreases |a|
  {
    if |a| == 0 {
      assert a + b == b;
    } else {
      var ab := a + b;
      assert ab[0] == a[0] && ab[1..] == a[1..] + b;
      LessAsymmetric(a[0], e);
      assert SortedInsert(ab, e) == [a[0]] + SortedInsert(a[1..] + b, e);
      SortedInsertAfter(a[1..], b, e);
      assert a == [a[0]] + a[1..];
    }
  }

  /** No element above `e` shares its key. */
  lemma AboveHasOtherKey(s: seq<Event>, e: Event)
    requires forall x :: x in s ==> Less(e, x)
    ensures !HasKey(s, e)
  {
    if HasKey(s, e) {
      var i :| 0 <= i < |s| && SameKey(s[i], e);
      assert s[i] in s;
      SameKeyUnordered(s[i], e);
    }
  }

  /**
    On a sorted sequence, everything `SortedInsert` returns is an old
    element or `e`, all old elements stay, and `e` is added exactly when no
    element has its key.
   */
  lemma {:induction false} SortedInsertContents(s: seq<Event>, e: Event)
    requires StrictlySorted(s)
    ensures forall x :: x in SortedInsert(s, e) <==> x in s || (x == e && !HasKey(s, e))
    decreases |s|
  {
    if |s| > 0 {
      SortedTail(s);
      Trichotomy(e, s[0]);
      assert s == [s[0]] + s[1..];
      if Less(e, s[0]) {
        forall x | x in s
          ensures Less(e, x)
        {
          if x != s[0] {
            LessTransitive(e, s[0], x);
          }
        }
        AboveHasOtherKey(s, e);
      } else if Less(s[0], e) {
        SortedInsertContents(s[1..], e);
        if HasKey(s[1..], e) {
          var i :| 0 <= i < |s[1..]| && SameKey(s[1..][i], e);
          assert SameKey(s[i + 1], e);
        }
        if HasKey(s, e) {
          var i :| 0 <= i < |s| && SameKey(s[i], e);
          assert i > 0 && SameKey(s[1..][i - 1], e);
        }
      } else {
        assert SameKey(s[0], e);
      }
    }
  }

  /** Sorted insertion keeps a strictly sorted sequence strictly sorted. */
  lemma {:induction false} SortedInsertSorted(s: seq<Event>, e: Event)
    requires StrictlySorted(s)
    ensures StrictlySorted(SortedInsert(s, e))
    decreases |s|
  {
    if |s| > 0 {
      SortedTail(s);
      if Less(e, s[0]) {
        var r := [e] + s;
        forall i, j | 0 <= i < j < |r|
          ensures Less(r[i], r[j])
        {
          if i == 0 && j > 1 {
            LessTransitive(e, s[0], s[j - 1]);
          }
        }
      } else if Less(s[0], e) {
        SortedInsertSorted(s[1..], e);
        SortedInsertContents(s[1..], e);
        var tail := SortedInsert(s[1..], e);
        var r := [s[0]] + tail;
        forall i, j | 0 <= i < j < |r|
          ensures Less(r[i], r[j])
        {
          if i == 0 {
            assert r[j] == tail[j - 1] && tail[j - 1] in tail;
          }
        }
      }
    }
  }

  /** Sorted insertion adds `e` exactly when no element has its key, and otherwise changes nothing. */
  lemma {:induction false} SortedInsertKeyPresent(s: seq<Event>, e: Event)
    requires StrictlySorted(s) && HasKey(s, e)
    ensures SortedInsert(s, e) == s
    decreases |s|
  {
    var i :| 0 <= i < |s| && SameKey(s[i], e);
    SortedTail(s);
    SortedInsertContents(s, e);
    Trichotomy(e, s[0]);
    if Less(s[0], e) {
      assert i != 0;
      assert SameKey(s[1..][i - 1], e);
      SortedInsertKeyPresent(s[1..], e);
      assert s == [s[0]] + s[1..];
    }
  }

  /**
    On a search tree, the in-order sequence after `insert` is the sorted
    insertion of the event into the old in-order sequence.
   */
  lemma {:induction false} InsertInOrder(e: Event, t: Tree)
    requires Avl(t) && Bst(t)
    ensures InOrder(Insert(e, t)) == SortedInsert(InOrder(t), e)
    decreases t
  {
    match t
    case Nil =>
    case Node(l, x, rt, h) =>
      BstNode(t);
      var a, b := InOrder(l), InOrder(rt);
      assert InOrder(t) == a + ([x] + b);
      assert InOrder(t) == (a + [x]) + b;
      if Less(e, x) {
        InsertInOrder(e, l);
        SortedInsertBefore(a, [x] + b, e);
      } else if Greater(e, x) {
        InsertInOrder(e, rt);
        var ax := a + [x];
        forall i | 0 <= i < |ax|
          ensures Less(ax[i], e)
        {
          if i < |a| {
            assert ax[i] in a;
            LessTransitive(ax[i], x, e);
          }
        }
        SortedInsertAfter(ax, b, e);
      } else {
        Trichotomy(e, x);
        assert HasKey(InOrder(t), e) by {
          assert InOrder(t)[|a|] == x;
        }
        SortedInsertKeyPresent(InOrder(t), e);
      }
  }

  /**
    `insert` keeps the search-tree invariant, and the stored events become
    the old ones plus the new event, unless its key was already present.
   */
  lemma InsertKeepsBst(e: Event, t: Tree)
    requires Avl(t) && Bst(t)
    ensures Bst(Insert(e, t))
    ensures forall x :: x in InOrder(Insert(e, t)) <==>
      x in InOrder(t) || (x == e && !HasKey(InOrder(t), e))
    ensures HasKey(InOrder(t), e) ==> InOrder(Insert(e, t)) == InOrder(t)
  {
    InsertInOrder(e, t);
    SortedInsertSorted(InOrder(t), e);
    SortedInsertContents(InOrder(t), e);
    if HasKey(InOrder(t), e) {
      SortedInsertKeyPresent(InOrder(t), e);
    }
  }

  /** On a search tree, `findMin` yields the least event. */
  lemma FindMinIsLeast(t: Tree)
    requires t.Node? && Bst(t)
    ensures forall y :: y in InOrder(t) && y != FindMin(t).ev ==> Less(FindMin(t).ev, y)
  {
    var s := InOrder(t);
    forall y | y in s && y != s[0]
      ensures Less(s[0], y)
    {
      var j :| 0 <= j < |s| && s[j] == y;
    }
  }
}
