/** The event sweep that classifies every byte of a file by its extents (crates/core/src/score.rs:58-116). */
module Sweep {
  import opened Common
  import opened Sorting
  import opened Candidates

  const CLASSES: nat := 8

  function AvailabilityIndex(a: Availability): (i: nat)
    ensures i < CLASSES
  {
    match a
    case Sparse => 0
    case Resident => 1
    case FreeInSnapshot => 2
    case Zeroed => 3
    case Unknown => 4
    case CurrentlyAllocated => 5
    case ReadFailed => 6
    case OutOfVolume => 7
  }

  /** No two availabilities share a counter. */
  lemma OwnIndex(a: Availability, b: Availability)
    ensures AvailabilityIndex(a) == AvailabilityIndex(b) <==> a == b
  {
  }

  /** The part of an extent inside the file. */
  function ClipStart(e: ExtentRun, size: nat): nat {
    Min(e.logical, size)
  }

  function ClipEnd(e: ExtentRun, size: nat): nat {
    Min(e.logical + e.len, size)
  }

  predicate Holds(e: ExtentRun, size: nat, b: int) {
    ClipStart(e, size) <= b < ClipEnd(e, size)
  }

  /** Some extent of the class covers the byte. */
  ghost predicate ClassAt(extents: seq<ExtentRun>, size: nat, b: int, category: nat) {
    exists e :: e in extents && AvailabilityIndex(e.availability) == category && Holds(e, size, b)
  }

  datatype Event = Event(pos: nat, starts: bool, category: nat)

  function Key(e: Event): int {
    e.pos
  }

  function EventsOf(e: ExtentRun, size: nat): seq<Event> {
    if ClipStart(e, size) < ClipEnd(e, size) then
      [Event(ClipStart(e, size), true, AvailabilityIndex(e.availability)),
       Event(ClipEnd(e, size), false, AvailabilityIndex(e.availability))]
    else []
  }

  function AllEvents(extents: seq<ExtentRun>, size: nat): (events: seq<Event>)
    ensures forall e :: e in events ==> e.category < CLASSES && e.pos <= size
  {
    if extents == [] then [] else AllEvents(extents[..|extents| - 1], size) + EventsOf(extents[|extents| - 1], size)
  }

  // ---------- Counting events ----------

  /** What an event adds for a class when starts count below `q` and ends count up to `p`. */
  function Weight(e: Event, category: nat, q: nat, p: nat): int {
    if e.category != category then 0
    else if e.starts then (if e.pos < q then 1 else 0)
    else if e.pos <= p then -1 else 0
  }

  function Sum(events: seq<Event>, category: nat, q: nat, p: nat): int {
    if events == [] then 0
    else Sum(events[..|events| - 1], category, q, p) + Weight(events[|events| - 1], category, q, p)
  }

  lemma {:induction false} SumConcat(a: seq<Event>, b: seq<Event>, category: nat, q: nat, p: nat)
    ensures Sum(a + b, category, q, p) == Sum(a, category, q, p) + Sum(b, category, q, p)
    decreases |b|
  {
    if b == [] {
      assert a + b == a;
    } else {
      assert (a + b)[..|a + b| - 1] == a + b[..|b| - 1];
      SumConcat(a, b[..|b| - 1], category, q, p);
    }
  }

  /** The order of the events does not matter for the sums. */
  lemma {:induction false} SumPermuted(a: seq<Event>, b: seq<Event>, category: nat, q: nat, p: nat)
    requires multiset(a) == multiset(b)
    ensures Sum(a, category, q, p) == Sum(b, category, q, p)
    decreases |a|
  {
    if a == [] {
      assert |multiset(b)| == 0;
    } else {
      var rest, last := a[..|a| - 1], a[|a| - 1];
      assert a == rest + [last];
      assert last in multiset(b);
      var i :| 0 <= i < |b| && b[i] == last;
      var without := b[..i] + b[i + 1..];
      assert b == b[..i] + [last] + b[i + 1..];
      WithoutOne(a, b, i);
      SumPermuted(rest, without, category, q, p);
      SumConcat(b[..i], b[i + 1..], category, q, p);
      SumConcat(b[..i], [last], category, q, p);
      SumConcat(b[..i] + [last], b[i + 1..], category, q, p);
      assert Sum([last], category, q, p) == Weight(last, category, q, p) by {
        assert [last][..0] == [];
      }
    }
  }

  lemma WithoutOne(a: seq<Event>, b: seq<Event>, i: nat)
    requires a != [] && i < |b| && b[i] == a[|a| - 1] && multiset(a) == multiset(b)
    ensures multiset(b[..i] + b[i + 1..]) == multiset(a[..|a| - 1])
  {
    var last := b[i];
    assert a == a[..|a| - 1] + [last] && b == b[..i] + ([last] + b[i + 1..]);
    assert multiset(b) == multiset(b[..i]) + (multiset{last} + multiset(b[i + 1..]));
    assert multiset(a) == multiset(a[..|a| - 1]) + multiset{last};
    assert multiset(b[..i] + b[i + 1..]) == multiset(b) - multiset{last};
  }

  /** How many extents of a class start before `q` and end after `p`. */
  function Spanning(extents: seq<ExtentRun>, size: nat, category: nat, q: nat, p: nat): nat {
    if extents == [] then 0
    else
      var e := extents[|extents| - 1];
      Spanning(extents[..|extents| - 1], size, category, q, p) +
      if AvailabilityIndex(e.availability) == category && ClipStart(e, size) < ClipEnd(e, size) &&
        ClipStart(e, size) < q && p < ClipEnd(e, size)
      then 1 else 0
  }

  lemma {:induction false} SumIsSpanning(extents: seq<ExtentRun>, size: nat, category: nat, q: nat, p: nat)
    requires p <= q
    ensures Sum(AllEvents(extents, size), category, q, p) == Spanning(extents, size, category, q, p)
  {
    if extents != [] {
      var rest, e := extents[..|extents| - 1], extents[|extents| - 1];
      SumIsSpanning(rest, size, category, q, p);
      SumConcat(AllEvents(rest, size), EventsOf(e, size), category, q, p);
      EventsOfSum(e, size, category, q, p);
    }
  }

  lemma EventsOfSum(e: ExtentRun, size: nat, category: nat, q: nat, p: nat)
    requires p <= q
    ensures Sum(EventsOf(e, size), category, q, p) ==
        if AvailabilityIndex(e.availability) == category && ClipStart(e, size) < ClipEnd(e, size) &&
          ClipStart(e, size) < q && p < ClipEnd(e, size)
        then 1 else 0
  {
    var events := EventsOf(e, size);
    if events != [] {
      assert events[..1] == [events[0]] && events[..1][..0] == [];
      assert Sum(events[..1], category, q, p) == Weight(events[0], category, q, p);
    }
  }

  /** A class covers a byte exactly when some extent of it spans the byte. */
  lemma {:induction false} SpanningIsClassAt(extents: seq<ExtentRun>, size: nat, category: nat, b: nat)
    ensures Spanning(extents, size, category, b + 1, b) > 0 <==> ClassAt(extents, size, b, category)
  {
    if extents != [] {
      var rest, e := extents[..|extents| - 1], extents[|extents| - 1];
      assert extents == rest + [e];
      SpanningIsClassAt(rest, size, category, b);
    }
  }

  /** With everything counted. */
  function Balance(events: seq<Event>, category: nat): int {
    if events == [] then 0
    else
      var e := events[|events| - 1];
      Balance(events[..|events| - 1], category) + if e.category != category then 0 else if e.starts then 1 else -1
  }

  lemma {:induction false} BalanceIsSum(events: seq<Event>, category: nat, q: nat, p: nat)
    requires forall e :: e in events ==> e.pos < q && e.pos <= p
    ensures Balance(events, category) == Sum(events, category, q, p)
  {
    if events != [] {
      BalanceIsSum(events[..|events| - 1], category, q, p);
    }
  }

  /** Leaving out starts only lowers the sum. */
  lemma {:induction false} BalanceAtLeast(events: seq<Event>, category: nat, q: nat, p: nat)
    requires forall e :: e in events ==> e.pos <= p
    ensures Balance(events, category) >= Sum(events, category, q, p)
  {
    if events != [] {
      BalanceAtLeast(events[..|events| - 1], category, q, p);
    }
  }

  lemma {:induction false} SumNothing(events: seq<Event>, category: nat, q: nat, p: nat)
    requires forall e :: e in events ==> e.pos >= q && e.pos > p
    ensures Sum(events, category, q, p) == 0
  {
    if events != [] {
      SumNothing(events[..|events| - 1], category, q, p);
    }
  }

  /** From `q` on only ends up to `p` count, and they count down. */
  lemma {:induction false} SumOfEnds(events: seq<Event>, category: nat, q: nat, p: nat)
    requires forall e :: e in events ==> e.pos >= q
    ensures Sum(events, category, q, p) <= 0
  {
    if events != [] {
      SumOfEnds(events[..|events| - 1], category, q, p);
    }
  }

  // ---------- The sweep ----------

  /** The events of a candidate in position order, ties in any order. */
  ghost predicate Swept(events: seq<Event>, extents: seq<ExtentRun>, size: nat) {
    SortedBy(Key, events) && multiset(events) == multiset(AllEvents(extents, size))
  }

  lemma SweptOrder(events: seq<Event>, extents: seq<ExtentRun>, size: nat)
    requires Swept(events, extents, size)
    ensures forall j, k :: 0 <= j < k < |events| ==> events[j].pos <= events[k].pos
  {
    assert forall k :: 0 <= k < |events| ==> Key(events[k]) == events[k].pos;
  }

  lemma SweptTotals(events: seq<Event>, extents: seq<ExtentRun>, size: nat, category: nat, q: nat, p: nat)
    requires Swept(events, extents, size) && p <= q
    ensures Sum(events, category, q, p) == Spanning(extents, size, category, q, p)
  {
    SumPermuted(events, AllEvents(extents, size), category, q, p);
    SumIsSpanning(extents, size, category, q, p);
  }

  /** Between two neighbouring positions the balance counts the extents covering each byte. */
  lemma BalanceBetween(events: seq<Event>, i: nat, extents: seq<ExtentRun>, size: nat, category: nat, b: nat)
    requires Swept(events, extents, size) && i <= |events|
    requires (forall k :: 0 <= k < i ==> events[k].pos <= b) && forall k :: i <= k < |events| ==> events[k].pos > b
    ensures Balance(events[..i], category) == Spanning(extents, size, category, b + 1, b)
    ensures Balance(events[..i], category) > 0 <==> ClassAt(extents, size, b, category)
  {
    assert events == events[..i] + events[i..];
    SumConcat(events[..i], events[i..], category, b + 1, b);
    BalanceIsSum(events[..i], category, b + 1, b);
    SumNothing(events[i..], category, b + 1, b);
    SweptTotals(events, extents, size, category, b + 1, b);
    SpanningIsClassAt(extents, size, category, b);
  }

  /** When an end comes up, its start has been counted, in whatever order the events of one position come. */
  lemma NeverBelowZero(events: seq<Event>, j: nat, extents: seq<ExtentRun>, size: nat)
    requires Swept(events, extents, size) && j < |events| && !events[j].starts
    ensures Balance(events[..j], events[j].category) >= 1
  {
    hide Swept, Sum;
    var p, category := events[j].pos, events[j].category;
    SweptOrder(events, extents, size);
    var before, after := events[..j], events[j + 1..];
    assert events == before + ([events[j]] + after);
    SumConcat(before, [events[j]] + after, category, p, p);
    SumConcat([events[j]], after, category, p, p);
    SumOne(events[j], category, p, p);
    SumOfEnds(after, category, p, p);
    SweptTotals(events, extents, size, category, p, p);
    BalanceAtLeast(before, category, p, p);
  }

  lemma SumOne(e: Event, category: nat, q: nat, p: nat)
    ensures Sum([e], category, q, p) == Weight(e, category, q, p)
  {
    assert [e][..0] == [];
  }

  datatype Segment = Segment(start: nat, end: nat, classes: seq<bool>)

  /** The segments so far describe every byte before `upTo`, and none at or after it. */
  ghost predicate Described(segments: seq<Segment>, extents: seq<ExtentRun>, size: nat, upTo: nat) {
    && (forall k :: 0 <= k < |segments| ==> SegmentRight(segments[k], extents, size) && segments[k].end <= upTo)
    && (forall j, k :: 0 <= j < k < |segments| ==> segments[j].end <= segments[k].start)
    && (forall b: nat, category: nat :: b < upTo && category < CLASSES && ClassAt(extents, size, b, category) ==>
          InSegment(segments, b))
  }

  ghost predicate InSegment(segments: seq<Segment>, b: int) {
    exists s :: s in segments && s.start <= b < s.end
  }

  /** A segment's classes are exactly the classes of the extents covering each of its bytes, and there is one. */
  ghost predicate SegmentRight(s: Segment, extents: seq<ExtentRun>, size: nat) {
    && s.start < s.end <= size && |s.classes| == CLASSES
    && (exists category: nat :: category < CLASSES && s.classes[category])
    && forall b: nat, category: nat :: s.start <= b < s.end && category < CLASSES ==>
         (s.classes[category] <==> ClassAt(extents, size, b, category))
  }

  /** The counters agree with the events taken so far. */
  ghost predicate Counts(active: array<nat>, events: seq<Event>)
    reads active
  {
    active.Length == CLASSES && forall category: nat :: category < CLASSES ==>
      active[category] == Balance(events, category)
  }

  /** The inner loop: all events of one position, in place. The saturating decrement never saturates. */
  method ApplyEvents(events: seq<Event>, i: nat, active: array<nat>, ghost extents: seq<ExtentRun>, ghost size: nat)
    returns (j: nat)
    requires Swept(events, extents, size) && i < |events| && Counts(active, events[..i])
    requires forall e :: e in events ==> e.category < CLASSES
    modifies active
    ensures i < j <= |events| && Counts(active, events[..j])
    ensures (forall k :: i <= k < j ==> events[k].pos == events[i].pos)
    ensures (j < |events| ==> events[j].pos != events[i].pos)
  {
    hide Swept;
    j := i;
    while j < |events| && events[j].pos == events[i].pos
      invariant i <= j <= |events| && Counts(active, events[..j])
      invariant forall k :: i <= k < j ==> events[k].pos == events[i].pos
    {
      assert events[j] in events;
      assert events[..j + 1][..j] == events[..j];
      if events[j].starts {
        active[events[j].category] := active[events[j].category] + 1;
      } else {
        NeverBelowZero(events, j, extents, size);
        active[events[j].category] := active[events[j].category] - 1;
      }
      j := j + 1;
    }
  }

  lemma NothingBefore(events: seq<Event>, extents: seq<ExtentRun>, size: nat, upTo: nat)
    requires Swept(events, extents, size) && forall k :: 0 <= k < |events| ==> events[k].pos >= upTo
    ensures Described([], extents, size, upTo)
  {
    forall b: nat, category: nat | b < upTo && category < CLASSES
      ensures !ClassAt(extents, size, b, category)
    {
      BalanceBetween(events, 0, extents, size, category, b);
    }
  }

  lemma NothingAfter(events: seq<Event>, segments: seq<Segment>, extents: seq<ExtentRun>, size: nat, previous: nat)
    requires Swept(events, extents, size) && Described(segments, extents, size, previous) && previous <= size
    requires forall k :: 0 <= k < |events| ==> events[k].pos <= previous
    ensures Described(segments, extents, size, size)
  {
    hide SegmentRight;
    forall b: nat, category: nat | previous <= b && category < CLASSES
      ensures !ClassAt(extents, size, b, category)
    {
      assert events[..|events|] == events;
      BalanceBetween(events, |events|, extents, size, category, b);
      BalanceBetween(events, |events|, extents, size, category, size);
      NoneAtEnd(extents, size, category);
    }
    hide ClassAt;
  }

  lemma NoneAtEnd(extents: seq<ExtentRun>, size: nat, category: nat)
    ensures !ClassAt(extents, size, size, category)
  {
  }

  function ActiveClasses(active: array<nat>): (classes: seq<bool>)
    reads active
    requires active.Length == CLASSES
    ensures |classes| == CLASSES && forall c :: 0 <= c < CLASSES ==> (classes[c] <==> active[c] > 0)
  {
    seq(CLASSES, c requires 0 <= c < active.Length reads active => active[c] > 0)
  }

  /** The stretch between two neighbouring positions becomes a segment if any class is active there. */
  method Advance(segments: seq<Segment>, ghost events: seq<Event>, ghost i: nat, active: array<nat>, previous: nat,
                 position: nat, ghost extents: seq<ExtentRun>, ghost size: nat)
    returns (next: seq<Segment>)
    requires Swept(events, extents, size) && i <= |events| && Counts(active, events[..i])
    requires Described(segments, extents, size, previous) && previous <= position <= size
    requires previous < position ==>
        (forall k :: 0 <= k < i ==> events[k].pos <= previous) && forall k :: i <= k < |events| ==>
          events[k].pos >= position
    ensures Described(next, extents, size, position)
  {
    hide Swept;
    next := segments;
    if previous < position {
      if AnyActive(active) {
        next := segments + [Segment(previous, position, ActiveClasses(active))];
      }
      StretchClasses(events, i, active, previous, position, extents, size);
      hide ClassAt, Balance;
      assert forall s :: s in segments ==> s in next;
    }
  }

  lemma StretchClasses(events: seq<Event>, i: nat, active: array<nat>, previous: nat, position: nat,
                       extents: seq<ExtentRun>, size: nat)
    requires Swept(events, extents, size) && i <= |events| && Counts(active, events[..i])
    requires (forall k :: 0 <= k < i ==> events[k].pos <= previous) && forall k :: i <= k < |events| ==>
      events[k].pos >= position
    ensures forall b: nat, category: nat :: previous <= b < position && category < CLASSES ==>
        (active[category] > 0 <==> ClassAt(extents, size, b, category))
  {
    hide Swept, ClassAt;
    forall b: nat, category: nat | previous <= b < position && category < CLASSES
      ensures active[category] > 0 <==> ClassAt(extents, size, b, category)
    {
      BalanceBetween(events, i, extents, size, category, b);
    }
  }

  predicate AnyActive(active: array<nat>)
    reads active
    requires active.Length == CLASSES
  {
    exists category :: 0 <= category < CLASSES && active[category] > 0
  }

  /** `classified_logical_segments`, for any order of equal positions. */
  method ClassifiedSegments(extents: seq<ExtentRun>, size: nat) returns (segments: seq<Segment>)
    ensures Described(segments, extents, size, size)
  {
    var events := SortBy(Key, AllEvents(extents, size));
    segments := SweepEvents(events, extents, size);
  }

  /** Any two orders of the events that agree on positions give correct segments: `events` is any sorted permutation. */
  method SweepEvents(events: seq<Event>, ghost extents: seq<ExtentRun>, ghost size: nat)
    returns (segments: seq<Segment>)
    requires Swept(events, extents, size)
    requires forall e :: e in events ==> e.category < CLASSES && e.pos <= size
    ensures Described(segments, extents, size, size)
  {
    segments := [];
    if events == [] {
      NothingBefore(events, extents, size, size);
      return;
    }
    var active := new nat[CLASSES](_ => 0);
    var previous: nat, i: nat := events[0].pos, 0;
    SweptOrder(events, extents, size);
    NothingBefore(events, extents, size, previous);
    while i < |events|
      invariant i <= |events| && Counts(active, events[..i])
      invariant Described(segments, extents, size, previous) && previous <= size
      invariant forall k :: 0 <= k < i ==> events[k].pos <= previous
      invariant forall k :: i <= k < |events| ==> if i == 0 then events[k].pos >= previous else events[k].pos > previous
    {
      hide Swept, Described, Counts;
      var position := events[i].pos;
      assert events[i] in events;
      segments := Advance(segments, events, i, active, previous, position, extents, size);
      i := ApplyEvents(events, i, active, extents, size);
      previous := position;
    }
    assert events[..|events|] == events;
    NothingAfter(events, segments, extents, size, previous);
  }
}
