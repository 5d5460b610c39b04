/**
  `EventGraph` (Graph.cpp): the events in insertion order, and beside them
  a parallel sequence of outgoing dependency lists, one per slot.

  The two sequences are meant to stay index-aligned, but `deleteEvent`
  only removes from `events`; after a deletion the lists no longer belong
  to the events at the same index.  All that survives is that there are
  at least as many lists as events, which is what `addDependency` needs to
  index `dependencies` safely.
 */
module EventGraph {
  import opened Wrappers
  import opened Events
  import AvlTree
  import Codec

  datatype Graph = Graph(events: seq<Event>, dependencies: seq<seq<Int32>>)

  /** A graph with no events. */
  const Empty: Graph := Graph([], [])

  /** Every event index is also a valid index into `dependencies`. */
  predicate Indexable(g: Graph) {
    |g.events| <= |g.dependencies|
  }

  /** `addEvent`: the event is appended and so is an empty dependency list. */
  function AddEvent(g: Graph, e: Event): (r: Graph)
    ensures |r.events| == |g.events| + 1 && |r.dependencies| == |g.dependencies| + 1
    ensures r.events[|g.events|] == e && r.dependencies[|g.dependencies|] == []
    ensures forall k :: 0 <= k < |g.events| ==> r.events[k] == g.events[k]
    ensures forall k :: 0 <= k < |g.dependencies| ==> r.dependencies[k] == g.dependencies[k]
  {
    Graph(g.events + [e], g.dependencies + [[]])
  }

  /** Whether some event of `s` has the id. */
  predicate HasId(s: seq<Event>, id: int) {
    exists k :: 0 <= k < |s| && s[k].id == id
  }

  /** The index of the last event with the id, or -1. */
  function LastIndexOf(s: seq<Event>, id: int): (r: int)
    ensures -1 <= r < |s|
    ensures r == -1 <==> !HasId(s, id)
    ensures r >= 0 ==> s[r].id == id && forall k :: r < k < |s| ==> s[k].id != id
  {
    if |s| == 0 then -1
    else if s[|s| - 1].id == id then |s| - 1
    else LastIndexOf(s[..|s| - 1], id)
  }

  /** The index of the first event with the id, or -1. */
  function FirstIndexOf(s: seq<Event>, id: int): (r: int)
    ensures -1 <= r < |s|
    ensures r == -1 <==> !HasId(s, id)
    ensures r >= 0 ==> s[r].id == id && forall k :: 0 <= k < r ==> s[k].id != id
  {
    if |s| == 0 then -1
    else if s[0].id == id then 0
    else
      var i := FirstIndexOf(s[1..], id);
      if i == -1 then -1 else i + 1
  }

  /**
    The scan at the top of `addDependency`: one pass over the events that
    remembers the latest index holding each of the two ids.
   */
  method FindEndpoints(events: seq<Event>, fromId: int, toId: int) returns (fromIndex: int, toIndex: int)
    ensures fromIndex == LastIndexOf(events, fromId)
    ensures toIndex == LastIndexOf(events, toId)
  {
    fromIndex, toIndex := -1, -1;
    var i := 0;
    while i < |events|
      invariant 0 <= i <= |events|
      invariant fromIndex == LastIndexOf(events[..i], fromId)
      invariant toIndex == LastIndexOf(events[..i], toId)
    {
      assert events[..i + 1][..i] == events[..i];
      if events[i].id == fromId {
        fromIndex := i;
      }
      if events[i].id == toId {
        toIndex := i;
      }
      i := i + 1;
    }
    assert events[..i] == events;
  }

  /**
    `addDependency(from, to)`: when both ids occur, `to` is appended to the
    list at the last index holding `from` and added to that event's
    dependency set; otherwise nothing changes.  There is no check for
    cycles or for an edge that is already there.
   */
  function AddDependency(g: Graph, fromId: Int32, toId: Int32): (r: Graph)
    requires Indexable(g)
    ensures Indexable(r)
    ensures !HasId(g.events, fromId) || !HasId(g.events, toId) ==> r == g
    ensures HasId(g.events, fromId) && HasId(g.events, toId) ==>
      var i := LastIndexOf(g.events, fromId);
      && |r.events| == |g.events| && |r.dependencies| == |g.dependencies|
      && r.dependencies[i] == g.dependencies[i] + [toId]
      && r.events[i] == g.events[i].(dependencies := g.events[i].dependencies + {toId})
      && (forall k :: 0 <= k < |g.events| && k != i ==> r.events[k] == g.events[k])
      && (forall k :: 0 <= k < |g.dependencies| && k != i ==> r.dependencies[k] == g.dependencies[k])
  {
    var fromIndex := LastIndexOf(g.events, fromId);
    var toIndex := LastIndexOf(g.events, toId);
    if fromIndex != -1 && toIndex != -1 then
      var e := g.events[fromIndex];
      Graph(g.events[fromIndex := e.(dependencies := e.dependencies + {toId})],
            g.dependencies[fromIndex := g.dependencies[fromIndex] + [toId]])
    else g
  }

  /** The text fields `updateEvent*` can change. */
  datatype Field = Name | Date | StartTime | EndTime

  /** `e` with one text field replaced. */
  function SetField(e: Event, f: Field, v: string): (r: Event)
    ensures r.id == e.id && r.dependencies == e.dependencies
    ensures r.name == (if f == Name then v else e.name)
    ensures r.date == (if f == Date then v else e.date)
    ensures r.startTime == (if f == StartTime then v else e.startTime)
    ensures r.endTime == (if f == EndTime then v else e.endTime)
  {
    match f
    case Name => e.(name := v)
    case Date => e.(date := v)
    case StartTime => e.(startTime := v)
    case EndTime => e.(endTime := v)
  }

  /** The loop of every `updateEvent*`: change the first event with the id, then stop. */
  function UpdateFirst(s: seq<Event>, id: int, f: Field, v: string): (r: seq<Event>)
    ensures |r| == |s|
    ensures var i := FirstIndexOf(s, id);
      (forall k :: 0 <= k < |s| && k != i ==> r[k] == s[k]) &&
      (i >= 0 ==> r[i] == SetField(s[i], f, v))
  {
    if |s| == 0 then []
    else if s[0].id == id then [SetField(s[0], f, v)] + s[1..]
    else [s[0]] + UpdateFirst(s[1..], id, f, v)
  }

  /** One `updateEvent*` call on the graph; the dependency lists are not touched. */
  function Update(g: Graph, id: Int32, f: Field, v: string): (r: Graph)
    ensures r.dependencies == g.dependencies && |r.events| == |g.events|
    ensures !HasId(g.events, id) ==> r == g
    ensures HasId(g.events, id) ==>
      var i := FirstIndexOf(g.events, id);
      r.events[i] == SetField(g.events[i], f, v) &&
      forall k :: 0 <= k < |g.events| && k != i ==> r.events[k] == g.events[k]
  {
    var r := Graph(UpdateFirst(g.events, id, f, v), g.dependencies);
    assert !HasId(g.events, id) ==> r.events == g.events;
    r
  }

  /** `updateEventName` */
  function UpdateEventName(g: Graph, id: Int32, newName: string): (r: Graph)
    ensures |r.events| == |g.events|
    ensures r.dependencies == g.dependencies
    ensures HasId(g.events, id) ==>
      var i := FirstIndexOf(g.events, id);
      r.events[i] == g.events[i].(name := newName) &&
      forall k :: 0 <= k < |g.events| && k != i ==> r.events[k] == g.events[k]
    ensures !HasId(g.events, id) ==> r == g
  {
    Update(g, id, Name, newName)
  }

  /** `updateEventDate` */
  function UpdateEventDate(g: Graph, id: Int32, newDate: string): (r: Graph)
    ensures |r.events| == |g.events|
    ensures r.dependencies == g.dependencies
    ensures HasId(g.events, id) ==>
      var i := FirstIndexOf(g.events, id);
      r.events[i] == g.events[i].(date := newDate) &&
      forall k :: 0 <= k < |g.events| && k != i ==> r.events[k] == g.events[k]
    ensures !HasId(g.events, id) ==> r == g
  {
    Update(g, id, Date, newDate)
  }

  /** `updateEventStartTime` */
  function UpdateEventStartTime(g: Graph, id: Int32, newStartTime: string): (r: Graph)
    ensures |r.events| == |g.events|
    ensures r.dependencies == g.dependencies
    ensures HasId(g.events, id) ==>
      var i := FirstIndexOf(g.events, id);
      r.events[i] == g.events[i].(startTime := newStartTime) &&
      forall k :: 0 <= k < |g.events| && k != i ==> r.events[k] == g.events[k]
    ensures !HasId(g.events, id) ==> r == g
  {
    Update(g, id, StartTime, newStartTime)
  }

  /** `updateEventEndTime` */
  function UpdateEventEndTime(g: Graph, id: Int32, newEndTime: string): (r: Graph)
    ensures |r.events| == |g.events|
    ensures r.dependencies == g.dependencies
    ensures HasId(g.events, id) ==>
      var i := FirstIndexOf(g.events, id);
      r.events[i] == g.events[i].(endTime := newEndTime) &&
      forall k :: 0 <= k < |g.events| && k != i ==> r.events[k] == g.events[k]
    ensures !HasId(g.events, id) ==> r == g
  {
    Update(g, id, EndTime, newEndTime)
  }

  /** The number of events with the id. */
  function Count(s: seq<Event>, id: int): nat {
    if |s| == 0 then 0 else (if s[0].id == id then 1 else 0) + Count(s[1..], id)
  }

  /** The erase-`remove_if` idiom: every event with the id goes, the rest keep their order. */
  function Without(s: seq<Event>, id: int): seq<Event> {
    if |s| == 0 then []
    else if s[0].id == id then Without(s[1..], id)
    else [s[0]] + Without(s[1..], id)
  }

  /** What survives is exactly what was there and does not have the id. */
  lemma {:induction false} WithoutMembers(s: seq<Event>, id: int)
    ensures forall x :: x in Without(s, id) <==> x in s && x.id != id
    ensures |Without(s, id)| == |s| - Count(s, id)
    decreases |s|
  {
    if |s| > 0 {
      WithoutMembers(s[1..], id);
      assert s == [s[0]] + s[1..];
    }
  }

  /** `deleteEvent`: the dependency lists are left as they were. */
  function DeleteEvent(g: Graph, id: Int32): (r: Graph)
    ensures r.dependencies == g.dependencies
    ensures forall x :: x in r.events <==> x in g.events && x.id != id
    ensures |r.events| == |g.events| - Count(g.events, id)
  {
    WithoutMembers(g.events, id);
    Graph(Without(g.events, id), g.dependencies)
  }

  /** Removal distributes over concatenation, so the survivors keep their relative order. */
  lemma {:induction false} WithoutAppend(a: seq<Event>, b: seq<Event>, id: int)
    ensures Without(a + b, id) == Without(a, id) + Without(b, id)
    decreases |a|
  {
    if |a| == 0 {
      assert a + b == b;
    } else {
      assert a == [a[0]] + a[1..];
      assert a + b == [a[0]] + (a[1..] + b);
      WithoutCons(a[0], a[1..], id);
      WithoutCons(a[0], a[1..] + b, id);
      WithoutAppend(a[1..], b, id);
    }
  }

  lemma WithoutCons(x: Event, rest: seq<Event>, id: int)
    ensures Without([x] + rest, id) == if x.id == id then Without(rest, id) else [x] + Without(rest, id)
  {
    assert ([x] + rest)[0] == x && ([x] + rest)[1..] == rest;
  }

  /** Deleting an id that does not occur changes nothing. */
  lemma {:induction false} WithoutAbsent(s: seq<Event>, id: int)
    requires !HasId(s, id)
    ensures Without(s, id) == s
    decreases |s|
  {
    if |s| > 0 {
      assert s[0].id != id;
      forall k | 0 <= k < |s[1..]|
        ensures s[1..][k].id != id
      {
        assert s[1..][k] == s[k + 1];
      }
      WithoutAbsent(s[1..], id);
    }
  }

  /** Every operation keeps at least as many dependency lists as events. */
  lemma OperationsKeepIndexable(g: Graph, e: Event, a: Int32, b: Int32, f: Field, v: string)
    requires Indexable(g)
    ensures Indexable(AddEvent(g, e))
    ensures Indexable(AddDependency(g, a, b))
    ensures Indexable(Update(g, a, f, v))
    ensures Indexable(DeleteEvent(g, a))
  {
    WithoutMembers(g.events, a);
  }

  /**
    `hasConflict`: whether the candidate's interval overlaps that of any
    stored event.  The dates are not compared.
   */
  function HasConflict(s: seq<Event>, e: Event): (r: bool)
    ensures r <==> exists k :: 0 <= k < |s| && Overlaps(e, s[k])
  {
    if |s| == 0 then false
    else if Overlaps(e, s[0]) then true
    else
      var rest := HasConflict(s[1..], e);
      assert rest <==> exists k :: 1 <= k < |s| && Overlaps(e, s[k]) by {
        if rest {
          var k :| 0 <= k < |s[1..]| && Overlaps(e, s[1..][k]);
          assert s[k + 1] == s[1..][k];
        }
        if exists k :: 1 <= k < |s| && Overlaps(e, s[k]) {
          var k :| 1 <= k < |s| && Overlaps(e, s[k]);
          assert s[1..][k - 1] == s[k];
        }
      }
      rest
  }

  /**
    Every conflict the AVL index reports is also one `hasConflict` reports,
    for a graph holding at least the events of the tree.
   */
  lemma DetectedConflictIsGraphConflict(g: Graph, t: AvlTree.Tree, e: Event)
    requires forall x :: x in AvlTree.InOrder(t) ==> x in g.events
    requires AvlTree.DetectConflicts(e, t)
    ensures HasConflict(g.events, e)
  {
    var x :| x in AvlTree.InOrder(t) && AvlTree.Conflicts(e, x);
    var k :| 0 <= k < |g.events| && g.events[k] == x;
  }

  /**
    The converse fails: an event on another day with the same hours is a
    conflict for `hasConflict` but not for `detectConflicts`.
   */
  lemma GraphConflictIgnoresDate()
    ensures var stored := Event(1, "standup", "2024-01-01", "09:00", "10:00", {});
            var other := Event(2, "review", "2024-01-02", "09:00", "10:00", {});
            var t := AvlTree.Node(AvlTree.Nil, stored, AvlTree.Nil, 0);
            HasConflict([stored], other) && !AvlTree.DetectConflicts(other, t)
  {
    var stored := Event(1, "standup", "2024-01-01", "09:00", "10:00", {});
    var other := Event(2, "review", "2024-01-02", "09:00", "10:00", {});
    assert Overlaps(other, stored) by {
      assert Lex.Less("09:00", "10:00") by {
        assert "09:00"[0] < "10:00"[0];
      }
    }
    assert other.date != stored.date by {
      assert other.date[9] != stored.date[9];
    }
  }

  /** Three events with ids 1, 2 and 1, each with its own dependency list. */
  function Sample(): Graph {
    Graph([Event(1, "a", "2024-01-01", "09:00", "10:00", {}),
           Event(2, "b", "2024-01-01", "10:00", "11:00", {}),
           Event(1, "c", "2024-01-01", "11:00", "12:00", {})],
          [[], [], []])
  }

  /** With a duplicated id, the edge goes to the last event holding it. */
  lemma DuplicateIdUsesLastIndex()
    ensures var r := AddDependency(Sample(), 1, 2);
      r.dependencies == [[], [], [2]] && r.events[0] == Sample().events[0] &&
      r.events[2].dependencies == {2}
  {
    var g := Sample();
    assert g.events[1].id == 2 && g.events[2].id == 1;
    assert LastIndexOf(g.events, 1) == 2;
    assert HasId(g.events, 1) && HasId(g.events, 2);
    var r := AddDependency(g, 1, 2);
    assert r.dependencies[2] == [] + [2] == [2];
    assert r.events[2].dependencies == {} + {2} == {2};
  }

  /** Nothing stops a cycle: 1 -> 2 and then 2 -> 1 are both recorded. */
  lemma CycleIsAccepted()
    ensures var g := Graph([Event(1, "a", "d", "s", "e", {}), Event(2, "b", "d", "s", "e", {})], [[], []]);
      var r := AddDependency(AddDependency(g, 1, 2), 2, 1);
      r.dependencies == [[2], [1]] &&
      r.events[0].dependencies == {2} && r.events[1].dependencies == {1}
  {
    var g := Graph([Event(1, "a", "d", "s", "e", {}), Event(2, "b", "d", "s", "e", {})], [[], []]);
    assert HasId(g.events, 1) && HasId(g.events, 2) by {
      assert g.events[0].id == 1 && g.events[1].id == 2;
    }
    assert LastIndexOf(g.events, 1) == 0;
    var g1 := AddDependency(g, 1, 2);
    assert g1.dependencies[0] == [] + [2] == [2];
    assert g1.events[0].dependencies == {} + {2} == {2};
    assert |g1.dependencies| == 2;
    assert g1.dependencies[1] == [];
    assert g1.dependencies == [[2], []];
    assert g1.events[0].id == 1 && g1.events[1].id == 2;
    assert LastIndexOf(g1.events, 2) == 1;
    assert HasId(g1.events, 1) && HasId(g1.events, 2);
    var r := AddDependency(g1, 2, 1);
    assert r.dependencies[1] == [] + [1] == [1];
    assert r.events[1].dependencies == {} + {1} == {1};
    assert r.dependencies[0] == [2];
  }

  /**
    After deleting the first event the lists stay where they were: the edge
    list at index 0 belonged to the deleted event and now sits beside the
    event that used to be at index 1.
   */
  lemma DeleteMisalignsDependencies()
    ensures var g := AddDependency(Sample(), 2, 1);
      var r := DeleteEvent(g, 2);
      |r.events| == 2 && |r.dependencies| == 3 &&
      r.events[1] == Sample().events[2] && r.dependencies[1] == [1] && r.dependencies[2] == []
  {
    var g := AddDependency(Sample(), 2, 1);
    assert LastIndexOf(Sample().events, 2) == 1;
    assert HasId(Sample().events, 1) by {
      assert Sample().events[0].id == 1;
    }
    assert g.events[1].id == 2 && g.events[0] == Sample().events[0] && g.events[2] == Sample().events[2];
    assert Without(g.events, 2) == [g.events[0], g.events[2]] by {
      assert g.events == [g.events[0]] + ([g.events[1]] + [g.events[2]]);
    }
  }

  /** `saveEvents`: one record per event, in the order of `events`. */
  function Save(g: Graph): string {
    Codec.SaveText(g.events)
  }

  /** What `saveEvents` writes reads back, record by record, as the graph's events in order. */
  lemma SaveReadsBack(g: Graph)
    requires forall k :: 0 <= k < |g.events| ==> Codec.Writable(g.events[k])
    ensures Codec.ReadAll(Codec.Open(Save(g))) == Ok(g.events)
  {
    Codec.SaveTextLoads(g.events);
  }
}
