/**
  The `Event` record every component exchanges, its ordering key
  `(date, startTime, endTime)` and the interval-overlap test both
  conflict checks use.
 */
module Events {
  import Lex

  /** The range of a C++ `int` on the platforms the program targets. */
  const IntMin: int := -0x8000_0000
  const IntMax: int := 0x7fff_ffff

  type Int32 = x: int | IntMin <= x <= IntMax

  /** A calendar entry; `dependencies` plays the role of the `std::set<int>`. */
  datatype Event = Event(
    id: Int32,
    name: string,
    date: string,
    startTime: string,
    endTime: string,
    dependencies: set<Int32>)

  /** The value of a default-constructed `Event`. */
  const Blank: Event := Event(0, "", "", "", "", {})

  /** Two events whose ordering keys coincide. */
  predicate SameKey(a: Event, b: Event) {
    a.date == b.date && a.startTime == b.startTime && a.endTime == b.endTime
  }

  /** `Event::operator<`: lexicographic on `(date, startTime, endTime)`. */
  predicate Less(a: Event, b: Event) {
    if a.date != b.date then Lex.Less(a.date, b.date)
    else if a.startTime != b.startTime then Lex.Less(a.startTime, b.startTime)
    else Lex.Less(a.endTime, b.endTime)
  }

  /** `Event::operator>` */
  predicate Greater(a: Event, b: Event) {
    Less(b, a)
  }

  /**
    The overlap test shared by `AVLTree::detectConflicts` and
    `EventGraph::hasConflict`: the candidate `a` overlaps the stored `s`
    unless `a` ends no later than `s` starts or starts no earlier than
    `s` ends.
   */
  predicate Overlaps(a: Event, s: Event) {
    !(Lex.LessEq(a.endTime, s.startTime) || Lex.LessEq(s.endTime, a.startTime))
  }

  /** `operator<` never relates an event to one with the same key, whatever the ids. */
  lemma SameKeyUnordered(a: Event, b: Event)
    requires SameKey(a, b)
    ensures !Less(a, b) && !Less(b, a)
  {
    Lex.Irreflexive(a.endTime);
  }

  lemma LessIrreflexive(a: Event)
    ensures !Less(a, a)
  {
    SameKeyUnordered(a, a);
  }

  lemma LessAsymmetric(a: Event, b: Event)
    requires Less(a, b)
    ensures !Less(b, a)
  {
    if a.date != b.date {
      Lex.Asymmetric(a.date, b.date);
    } else if a.startTime != b.startTime {
      Lex.Asymmetric(a.startTime, b.startTime);
    } else {
      Lex.Asymmetric(a.endTime, b.endTime);
    }
  }

  lemma LessTransitive(a: Event, b: Event, c: Event)
    requires Less(a, b) && Less(b, c)
    ensures Less(a, c)
  {
    if a.date != b.date {
      if b.date != c.date {
        Lex.Transitive(a.date, b.date, c.date);
      }
      if a.date == c.date {
        Lex.Asymmetric(a.date, b.date);
      }
    } else if b.date != c.date {
    } else if a.startTime != b.startTime {
      if b.startTime != c.startTime {
        Lex.Transitive(a.startTime, b.startTime, c.startTime);
      }
      if a.startTime == c.startTime {
        Lex.Asymmetric(a.startTime, b.startTime);
      }
    } else if b.startTime != c.startTime {
    } else {
      Lex.Transitive(a.endTime, b.endTime, c.endTime);
    }
  }

  /** Exactly one of `a < b`, `b < a`, "same key" holds. */
  lemma Trichotomy(a: Event, b: Event)
    ensures SameKey(a, b) || Less(a, b) || Less(b, a)
    ensures SameKey(a, b) ==> !Less(a, b) && !Less(b, a)
    ensures Less(a, b) ==> !Less(b, a) && !SameKey(a, b)
  {
    Lex.Total(a.date, b.date);
    Lex.Total(a.startTime, b.startTime);
    Lex.Total(a.endTime, b.endTime);
    if SameKey(a, b) {
      SameKeyUnordered(a, b);
    }
    if Less(a, b) {
      LessAsymmetric(a, b);
      LessIrreflexive(a);
    }
  }

  /** Overlap is the open-interval intersection test, so it is symmetric. */
  lemma OverlapsMeansIntersect(a: Event, s: Event)
    ensures Overlaps(a, s) <==>
      Lex.Less(s.startTime, a.endTime) && Lex.Less(a.startTime, s.endTime)
    ensures Overlaps(a, s) <==> Overlaps(s, a)
  {
  }

  /** Touching endpoints are not an overlap, in either order. */
  lemma TouchingDoesNotOverlap(a: Event, s: Event)
    requires a.endTime == s.startTime || s.endTime == a.startTime
    ensures !Overlaps(a, s) && !Overlaps(s, a)
  {
    Lex.Irreflexive(a.endTime);
    Lex.Irreflexive(s.endTime);
  }
}
