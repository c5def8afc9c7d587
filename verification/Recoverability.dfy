/** The byte counts behind the recoverability score (crates/core/src/score.rs:118-178). */
module Recoverability {
  import opened Common
  import opened Intervals
  import opened Candidates
  import opened Sweep

  datatype Inputs = Inputs(
    free: nat, conflict: nat, missing: nat, readError: nat, zeroed: nat, zeroedRisk: nat, resident: nat, sparse: nat)

  // ---------- What a byte with these classes counts as ----------

  predicate Has(classes: seq<bool>, a: Availability) {
    |classes| == CLASSES && classes[AvailabilityIndex(a)]
  }

  /** Conflicting, unreadable or unknown evidence keeps a byte out of the readable counts. */
  predicate Blocked(classes: seq<bool>) {
    Has(classes, OutOfVolume) || Has(classes, ReadFailed) || Has(classes, CurrentlyAllocated) || Has(classes, Unknown)
  }

  predicate IsMissing(classes: seq<bool>) {
    Has(classes, OutOfVolume)
  }

  predicate IsReadError(classes: seq<bool>) {
    Has(classes, ReadFailed)
  }

  predicate IsConflict(classes: seq<bool>) {
    Has(classes, CurrentlyAllocated)
  }

  predicate IsZeroedRisk(classes: seq<bool>) {
    Has(classes, Zeroed)
  }

  predicate IsZeroed(classes: seq<bool>) {
    !Blocked(classes) && Has(classes, Zeroed)
  }

  predicate IsFree(classes: seq<bool>) {
    !Blocked(classes) && !Has(classes, Zeroed) && Has(classes, FreeInSnapshot)
  }

  predicate IsResident(classes: seq<bool>) {
    !Blocked(classes) && !Has(classes, Zeroed) && !Has(classes, FreeInSnapshot) && Has(classes, Resident)
  }

  predicate IsSparse(classes: seq<bool>) {
    !Blocked(classes) && !Has(classes, Zeroed) && !Has(classes, FreeInSnapshot) && !Has(classes, Resident) &&
      Has(classes, Sparse)
  }

  predicate IsAnything(classes: seq<bool>) {
    true
  }

  // ---------- Byte by byte ----------

  ghost predicate CoveredAt(extents: seq<ExtentRun>, size: nat, b: int) {
    exists e :: e in extents && Holds(e, size, b)
  }

  ghost function ClassesAt(extents: seq<ExtentRun>, size: nat, b: int): (classes: seq<bool>)
    ensures |classes| == CLASSES
  {
    seq(CLASSES, c requires 0 <= c < CLASSES => ClassAt(extents, size, b, c))
  }

  /** How many of the first `n` bytes are covered and count as `kind`. */
  ghost function CountBytes(extents: seq<ExtentRun>, size: nat, kind: seq<bool> -> bool, n: nat): nat {
    if n == 0 then 0
    else
      CountBytes(extents, size, kind, n - 1) + Counted(extents, size, kind, n - 1)
  }

  ghost function Counted(extents: seq<ExtentRun>, size: nat, kind: seq<bool> -> bool, b: nat): nat {
    if CoveredAt(extents, size, b) && kind(ClassesAt(extents, size, b)) then 1 else 0
  }

  ghost function CountUncovered(extents: seq<ExtentRun>, size: nat, n: nat): nat {
    if n == 0 then 0
    else CountUncovered(extents, size, n - 1) + if CoveredAt(extents, size, n - 1) then 0 else 1
  }

  /** A class is set at a byte exactly when an extent of that availability, and no other, covers the byte. */
  lemma HasMeans(extents: seq<ExtentRun>, size: nat, b: int, a: Availability)
    ensures Has(ClassesAt(extents, size, b), a) <==>
      exists e :: e in extents && e.availability == a && Holds(e, size, b)
  {
    forall e: ExtentRun
      ensures AvailabilityIndex(e.availability) == AvailabilityIndex(a) <==> e.availability == a
    {
      OwnIndex(e.availability, a);
    }
    hide AvailabilityIndex, Holds;
    assert ClassesAt(extents, size, b)[AvailabilityIndex(a)] == ClassAt(extents, size, b, AvailabilityIndex(a));
  }

  lemma CoveredHasClass(extents: seq<ExtentRun>, size: nat, b: int)
    ensures CoveredAt(extents, size, b) <==> exists c: nat :: c < CLASSES && ClassAt(extents, size, b, c)
  {
    if CoveredAt(extents, size, b) {
      var e :| e in extents && Holds(e, size, b);
      assert ClassAt(extents, size, b, AvailabilityIndex(e.availability));
    }
  }

  lemma {:induction false} CountStretch(extents: seq<ExtentRun>, size: nat, kind: seq<bool> -> bool, lo: nat,
                                        hi: nat, counted: bool)
    requires lo <= hi
    requires forall b: nat :: lo <= b < hi ==>
      ((CoveredAt(extents, size, b) && kind(ClassesAt(extents, size, b))) <==> counted)
    ensures CountBytes(extents, size, kind, hi) == CountBytes(extents, size, kind, lo) + if counted then hi - lo else 0
    decreases hi - lo
  {
    if lo < hi {
      CountStretch(extents, size, kind, lo, hi - 1, counted);
    }
  }

  // ---------- Segment by segment ----------

  function Tally(segments: seq<Segment>, kind: seq<bool> -> bool): int {
    if segments == [] then 0
    else
      var s := segments[|segments| - 1];
      Tally(segments[..|segments| - 1], kind) + if kind(s.classes) then s.end - s.start else 0
  }

  lemma SegmentBytes(s: Segment, extents: seq<ExtentRun>, size: nat, b: nat)
    requires SegmentRight(s, extents, size) && s.start <= b < s.end
    ensures CoveredAt(extents, size, b) && ClassesAt(extents, size, b) == s.classes
  {
    var category: nat :| category < CLASSES && s.classes[category];
    assert ClassAt(extents, size, b, category);
    CoveredHasClass(extents, size, b);
    assert forall c: nat :: c < CLASSES ==> ClassesAt(extents, size, b)[c] == ClassAt(extents, size, b, c);
  }

  /** Dropping the last segment of a correct description leaves a correct description of what comes before it. */
  lemma DescribedPrefix(segments: seq<Segment>, extents: seq<ExtentRun>, size: nat, upTo: nat)
    requires segments != [] && Described(segments, extents, size, upTo)
    ensures Described(segments[..|segments| - 1], extents, size, segments[|segments| - 1].start)
    ensures forall b: nat :: segments[|segments| - 1].end <= b < upTo ==> !CoveredAt(extents, size, b)
  {
    hide ClassAt, SegmentRight;
    var rest, last := segments[..|segments| - 1], segments[|segments| - 1];
    assert segments == rest + [last];
    SegmentNonEmpty(last, extents, size);
    forall b: nat | last.end <= b < upTo
      ensures !CoveredAt(extents, size, b)
    {
      CoveredHasClass(extents, size, b);
      assert forall k :: 0 <= k < |segments| ==> segments[k].end <= last.end;
      assert !InSegment(segments, b);
    }
    assert forall b: int :: InSegment(segments, b) && b < last.start ==> InSegment(rest, b);
  }

  lemma SegmentNonEmpty(s: Segment, extents: seq<ExtentRun>, size: nat)
    requires SegmentRight(s, extents, size)
    ensures s.start < s.end <= size
  {
  }

  /** The segment lengths of a kind add up to the number of bytes of that kind. */
  lemma {:induction false} TallyIsCount(segments: seq<Segment>, extents: seq<ExtentRun>, size: nat,
                                        kind: seq<bool> -> bool, upTo: nat)
    requires Described(segments, extents, size, upTo) && upTo <= size
    ensures Tally(segments, kind) == CountBytes(extents, size, kind, upTo)
  {
    hide ClassAt, SegmentRight, ClassesAt;
    if segments == [] {
      forall b: nat | b < upTo
        ensures !CoveredAt(extents, size, b)
      {
        CoveredHasClass(extents, size, b);
        assert !InSegment(segments, b);
      }
      CountStretch(extents, size, kind, 0, upTo, false);
    } else {
      var rest, last := segments[..|segments| - 1], segments[|segments| - 1];
      SegmentNonEmpty(last, extents, size);
      DescribedPrefix(segments, extents, size, upTo);
      TallyIsCount(rest, extents, size, kind, last.start);
      forall b: nat | last.start <= b < last.end
        ensures CoveredAt(extents, size, b) && ClassesAt(extents, size, b) == last.classes
      {
        SegmentBytes(last, extents, size, b);
      }
      CountStretch(extents, size, kind, last.start, last.end, kind(last.classes));
      CountStretch(extents, size, kind, last.end, upTo, false);
    }
  }

  function InputsFor(segments: seq<Segment>): Inputs
    requires forall k :: 0 <= k < |segments| ==> segments[k].start <= segments[k].end
  {
    TallyNat(segments, IsFree);
    TallyNat(segments, IsConflict);
    TallyNat(segments, IsMissing);
    TallyNat(segments, IsReadError);
    TallyNat(segments, IsZeroed);
    TallyNat(segments, IsZeroedRisk);
    TallyNat(segments, IsResident);
    TallyNat(segments, IsSparse);
    Inputs(
      Tally(segments, IsFree), Tally(segments, IsConflict), Tally(segments, IsMissing), Tally(segments, IsReadError),
      Tally(segments, IsZeroed), Tally(segments, IsZeroedRisk), Tally(segments, IsResident), Tally(segments, IsSparse))
  }

  lemma {:induction false} TallyNat(segments: seq<Segment>, kind: seq<bool> -> bool)
    requires forall k :: 0 <= k < |segments| ==> segments[k].start <= segments[k].end
    ensures Tally(segments, kind) >= 0
  {
    if segments != [] {
      TallyNat(segments[..|segments| - 1], kind);
    }
  }

  /** One turn of the loop of `from_candidate`. */
  method CountSegment(before: Inputs, s: Segment) returns (after: Inputs)
    requires s.start <= s.end && |s.classes| == CLASSES
    ensures var len := s.end - s.start; after == Inputs(
        before.free + (if IsFree(s.classes) then len else 0),
        before.conflict + (if IsConflict(s.classes) then len else 0),
        before.missing + (if IsMissing(s.classes) then len else 0),
        before.readError + (if IsReadError(s.classes) then len else 0),
        before.zeroed + (if IsZeroed(s.classes) then len else 0),
        before.zeroedRisk + (if IsZeroedRisk(s.classes) then len else 0),
        before.resident + (if IsResident(s.classes) then len else 0),
        before.sparse + (if IsSparse(s.classes) then len else 0))
  {
    var len := s.end - s.start;
    var outOfVolume, readFailed := s.classes[AvailabilityIndex(OutOfVolume)], s.classes[AvailabilityIndex(ReadFailed)];
    var conflict, unknown := s.classes[AvailabilityIndex(CurrentlyAllocated)], s.classes[AvailabilityIndex(Unknown)];
    var zeroed := s.classes[AvailabilityIndex(Zeroed)];
    after := before;
    if outOfVolume {
      after := after.(missing := after.missing + len);
    }
    if readFailed {
      after := after.(readError := after.readError + len);
    }
    if conflict {
      after := after.(conflict := after.conflict + len);
    }
    if zeroed {
      after := after.(zeroedRisk := after.zeroedRisk + len);
    }
    if outOfVolume || readFailed || conflict || unknown {
      return;
    }
    if zeroed {
      after := after.(zeroed := after.zeroed + len);
    } else if s.classes[AvailabilityIndex(FreeInSnapshot)] {
      after := after.(free := after.free + len);
    } else if s.classes[AvailabilityIndex(Resident)] {
      after := after.(resident := after.resident + len);
    } else if s.classes[AvailabilityIndex(Sparse)] {
      after := after.(sparse := after.sparse + len);
    }
  }

  // ---------- Coverage by merging intervals ----------

  function Clips(extents: seq<ExtentRun>, size: nat): (ranges: seq<Range>)
    ensures NonEmpty(ranges) && Within(ranges, size)
    ensures forall x: int :: In(ranges, x) <==> CoveredAt(extents, size, x)
  {
    if extents == [] then []
    else
      var rest, e := Clips(extents[..|extents| - 1], size), extents[|extents| - 1];
      assert extents == extents[..|extents| - 1] + [e];
      assert forall x: int :: CoveredAt(extents, size, x) <==>
        CoveredAt(extents[..|extents| - 1], size, x) || Holds(e, size, x);
      if ClipStart(e, size) < ClipEnd(e, size) then
        InSnoc(rest, Range(ClipStart(e, size), ClipEnd(e, size)));
        assert forall x: int :: Range(ClipStart(e, size), ClipEnd(e, size)).Contains(x) <==> Holds(e, size, x);
        rest + [Range(ClipStart(e, size), ClipEnd(e, size))]
      else rest
  }

  /** `covered_len`: the bytes some extent covers, each once. */
  method CoveredLen(extents: seq<ExtentRun>, size: nat) returns (covered: nat)
    ensures covered == CountBytes(extents, size, IsAnything, size)
  {
    var merged := MergeRanges(Clips(extents, size));
    assert Within(merged, size) by {
      forall r | r in merged
        ensures r.end <= size
      {
        assert r.Contains(r.end - 1);
        assert In(merged, r.end - 1);
        assert In(Clips(extents, size), r.end - 1);
      }
    }
    TotalIsCount(merged, (b: nat) => CoveredAt(extents, size, b), size);
    CoveredCount(extents, size, size);
    covered := Total(merged);
  }

  lemma {:induction false} CoveredCount(extents: seq<ExtentRun>, size: nat, n: nat)
    ensures Count((b: nat) => CoveredAt(extents, size, b), n) == CountBytes(extents, size, IsAnything, n)
  {
    if n > 0 {
      CoveredCount(extents, size, n - 1);
    }
  }

  /** `has_missing_ranges`. */
  method HasMissingRanges(extents: seq<ExtentRun>, size: nat) returns (missing: bool)
    ensures missing <==> exists b: nat :: b < size && !CoveredAt(extents, size, b)
  {
    var covered := CoveredLen(extents, size);
    missing := covered < size;
    Complement(extents, size, size);
    SomeUncovered(extents, size, size);
  }

  lemma {:induction false} Complement(extents: seq<ExtentRun>, size: nat, n: nat)
    ensures CountBytes(extents, size, IsAnything, n) + CountUncovered(extents, size, n) == n
  {
    if n > 0 {
      Complement(extents, size, n - 1);
    }
  }

  lemma {:induction false} SomeUncovered(extents: seq<ExtentRun>, size: nat, n: nat)
    ensures CountUncovered(extents, size, n) > 0 <==> exists b: nat :: b < n && !CoveredAt(extents, size, b)
  {
    if n > 0 {
      SomeUncovered(extents, size, n - 1);
      if !CoveredAt(extents, size, n - 1) {
        assert n - 1 < n;
      }
    }
  }

  // ---------- The derived inputs ----------

  /** Every count is the number of bytes it claims, over any extents. */
  ghost function TrueInputs(extents: seq<ExtentRun>, size: nat): Inputs {
    Inputs(
      CountBytes(extents, size, IsFree, size), CountBytes(extents, size, IsConflict, size),
      CountBytes(extents, size, IsMissing, size) + CountUncovered(extents, size, size),
      CountBytes(extents, size, IsReadError, size),
      CountBytes(extents, size, IsZeroed, size), CountBytes(extents, size, IsZeroedRisk, size),
      CountBytes(extents, size, IsResident, size), CountBytes(extents, size, IsSparse, size))
  }

  /** `from_candidate`. The source's saturating additions cannot saturate: no count exceeds the file size. */
  method FromCandidate(extents: seq<ExtentRun>, size: nat) returns (inputs: Inputs)
    ensures inputs == TrueInputs(extents, size)
    ensures inputs.free <= size && inputs.conflict <= size && inputs.missing <= size && inputs.readError <= size
    ensures inputs.zeroed <= size && inputs.zeroedRisk <= size && inputs.resident <= size && inputs.sparse <= size
  {
    var segments := ClassifiedSegments(extents, size);
    inputs := CountSegments(segments, extents, size);
    var covered := CoveredLen(extents, size);
    Complement(extents, size, size);
    if covered < size {
      inputs := inputs.(missing := inputs.missing + (size - covered));
    }
    Conservation(extents, size, size);
  }

  method CountSegments(segments: seq<Segment>, ghost extents: seq<ExtentRun>, ghost size: nat) returns (inputs: Inputs)
    requires Described(segments, extents, size, size)
    ensures var counted := TrueInputs(extents, size);
      inputs == counted.(missing := CountBytes(extents, size, IsMissing, size))
  {
    hide CountBytes, CountUncovered;
    SegmentsUsable(segments, extents, size);
    inputs := Inputs(0, 0, 0, 0, 0, 0, 0, 0);
    for k := 0 to |segments|
      invariant inputs == InputsFor(segments[..k])
    {
      hide IsFree, IsConflict, IsMissing, IsReadError, IsZeroed, IsZeroedRisk, IsResident, IsSparse;
      assert segments[..k + 1][..k] == segments[..k];
      inputs := CountSegment(inputs, segments[k]);
    }
    assert segments[..|segments|] == segments;
    TallyIsCount(segments, extents, size, IsFree, size);
    TallyIsCount(segments, extents, size, IsConflict, size);
    TallyIsCount(segments, extents, size, IsMissing, size);
    TallyIsCount(segments, extents, size, IsReadError, size);
    TallyIsCount(segments, extents, size, IsZeroed, size);
    TallyIsCount(segments, extents, size, IsZeroedRisk, size);
    TallyIsCount(segments, extents, size, IsResident, size);
    TallyIsCount(segments, extents, size, IsSparse, size);
  }

  lemma SegmentsUsable(segments: seq<Segment>, extents: seq<ExtentRun>, size: nat)
    requires Described(segments, extents, size, size)
    ensures forall k :: 0 <= k < |segments| ==> segments[k].start <= segments[k].end && |segments[k].classes| == CLASSES
  {
    hide ClassAt;
  }

  /** The readable kinds, the blocked bytes and the uncovered bytes partition the file. */
  lemma {:induction false} Conservation(extents: seq<ExtentRun>, size: nat, n: nat)
    ensures CountBytes(extents, size, IsFree, n) + CountBytes(extents, size, IsResident, n)
            + CountBytes(extents, size, IsSparse, n) + CountBytes(extents, size, IsZeroed, n)
            + CountBytes(extents, size, Blocked, n) + CountUncovered(extents, size, n) == n
    ensures CountBytes(extents, size, IsMissing, n) <= CountBytes(extents, size, Blocked, n)
    ensures CountBytes(extents, size, IsConflict, n) <= CountBytes(extents, size, Blocked, n)
    ensures CountBytes(extents, size, IsReadError, n) <= CountBytes(extents, size, Blocked, n)
    ensures CountBytes(extents, size, IsZeroedRisk, n) <= n
  {
    if n > 0 {
      hide Blocked, IsMissing, IsConflict, IsReadError, IsZeroedRisk, IsFree, IsResident, IsSparse, IsZeroed,
           ClassesAt, CoveredAt, Counted;
      Conservation(extents, size, n - 1);
      OneKind(extents, size, n - 1);
    }
  }

  /** An uncovered byte counts as nothing; a covered one as exactly one readable kind or as blocked. */
  lemma OneKind(extents: seq<ExtentRun>, size: nat, b: nat)
    ensures Counted(extents, size, IsFree, b) + Counted(extents, size, IsResident, b)
            + Counted(extents, size, IsSparse, b) + Counted(extents, size, IsZeroed, b)
            + Counted(extents, size, Blocked, b) == if CoveredAt(extents, size, b) then 1 else 0
    ensures Counted(extents, size, IsMissing, b) <= Counted(extents, size, Blocked, b)
    ensures Counted(extents, size, IsConflict, b) <= Counted(extents, size, Blocked, b)
    ensures Counted(extents, size, IsReadError, b) <= Counted(extents, size, Blocked, b)
    ensures Counted(extents, size, IsZeroedRisk, b) <= 1
  {
    hide ClassAt;
    CoveredHasClass(extents, size, b);
    var c := ClassesAt(extents, size, b);
    assert forall k: nat :: k < CLASSES ==> c[k] == ClassAt(extents, size, b, k);
  }

  /** The sweep and the interval merge agree on how many bytes are covered. */
  lemma SweepCoverage(segments: seq<Segment>, extents: seq<ExtentRun>, size: nat)
    requires Described(segments, extents, size, size)
    ensures Tally(segments, IsAnything) == CountBytes(extents, size, IsAnything, size)
  {
    TallyIsCount(segments, extents, size, IsAnything, size);
  }
}
