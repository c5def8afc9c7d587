/** Content plans: extents coalesced into read and zero segments (crates/restore/src/plan.rs). */
module Plan {
  import opened Common
  import opened Sorting
  import opened Candidates
  import opened Segmenting

  const MAX_CONTENT_PLAN_SEGMENTS: nat := 1_000_000

  datatype Policy = CompleteOnly | ZeroFillAndMap

  datatype Segment =
    | Read(logical: nat, physical: nat, len: nat)
    | ZeroFill(logical: nat, len: nat, reason: ZeroReason)
  {
    function End(): nat {
      logical + len
    }
  }

  function SegmentMeaning(segment: Segment, b: int): Meaning {
    match segment
    case Read(logical, physical, _) => Physical(physical + (b - logical))
    case ZeroFill(_, _, reason) => Zero(reason)
  }

  datatype ContentPlan = ContentPlan(
    candidateId: nat, logicalSize: nat, segments: seq<Segment>,
    expectedSha256: Option<seq<Byte>>, requiresBestEffort: bool, policy: Policy)

  datatype PlanError =
    | InvalidPlanLimits
    | SegmentLimitExceeded
    | ZeroLengthExtent(index: nat)
    | LogicalRangeOverflow
    | LogicalRangeOutOfBounds
    | OverlappingExtents(previousEnd: nat, nextStart: nat)
    | PhysicalRangeOverflow
    | PhysicalRangeOutOfBounds
    | UnavailableContent(reason: ZeroReason)

  /** Nonempty segments laid end to end over `[0, end)`. */
  ghost predicate Tiles(segments: seq<Segment>, end: int) {
    if segments == [] then end == 0
    else
      var last := segments[|segments| - 1];
      last.len > 0 && last.End() == end && Tiles(segments[..|segments| - 1], last.logical)
  }

  /** What a plan says about byte `b`: the last segment starting at or before it decides. */
  ghost function PlanMeaning(segments: seq<Segment>, b: int): Meaning {
    if segments == [] then Zero(MissingExtent)
    else
      var last := segments[|segments| - 1];
      if last.logical <= b then SegmentMeaning(last, b) else PlanMeaning(segments[..|segments| - 1], b)
  }

  ghost predicate NeedsBestEffort(segments: seq<Segment>) {
    exists s :: s in segments && s.ZeroFill? && s.reason != SparseZero
  }

  ghost predicate ReadsWithin(segments: seq<Segment>, sourceLen: nat) {
    forall s :: s in segments && s.Read? ==> s.physical + s.len <= sourceLen
  }

  // ---------- The builder ----------

  datatype BuiltSegment = BuiltSegment(segment: Segment, readAvailability: Option<Availability>)

  ghost function Segments(built: seq<BuiltSegment>): (segments: seq<Segment>)
    ensures |segments| == |built|
  {
    seq(|built|, i requires 0 <= i < |built| => built[i].segment)
  }

  /** Lengthening the last segment by `more` bytes. */
  function Grow(built: seq<BuiltSegment>, more: nat): seq<BuiltSegment>
    requires built != []
  {
    var last := built[|built| - 1];
    built[..|built| - 1] + [last.(segment := last.segment.(len := last.segment.len + more))]
  }

  /** The last segment and the added one make one segment. */
  predicate Joinable(built: seq<BuiltSegment>, added: BuiltSegment) {
    && built != []
    && var last := built[|built| - 1];
      && last.segment.End() == added.segment.logical
      && match added.segment
        case Read(_, physical, _) =>
          last.segment.Read? && last.segment.physical + last.segment.len == physical &&
            last.readAvailability == added.readAvailability
        case ZeroFill(_, _, reason) => last.segment.ZeroFill? && last.segment.reason == reason
  }

  function Merged(built: seq<BuiltSegment>, added: BuiltSegment): seq<BuiltSegment> {
    if Joinable(built, added) then Grow(built, added.segment.len) else built + [added]
  }

  /** Whatever the builder did, the plan now also covers `[logical, logical + len)` with the given segment's meaning. */
  ghost predicate Extended(before: seq<Segment>, after: seq<Segment>, added: Segment) {
    && Tiles(after, added.End())
    && |before| <= |after| <= |before| + 1
    && (forall b: int :: b < added.logical ==> PlanMeaning(after, b) == PlanMeaning(before, b))
    && (forall b: int :: added.logical <= b < added.End() ==> PlanMeaning(after, b) == SegmentMeaning(added, b))
    && (NeedsBestEffort(after) <==> NeedsBestEffort(before) || (added.ZeroFill? && added.reason != SparseZero))
    && (forall limit: nat :: ReadsWithin(after, limit) <==> ReadsWithin(before, limit) && ReadsWithin([added], limit))
  }

  lemma PushExtends(built: seq<BuiltSegment>, added: BuiltSegment)
    requires Tiles(Segments(built), added.segment.logical) && added.segment.len > 0
    requires built != [] && built[|built| - 1].segment.ZeroFill? && added.segment.ZeroFill? ==>
      built[|built| - 1].segment.reason != added.segment.reason
    ensures Extended(Segments(built), Segments(built + [added]), added.segment)
  {
    var before, after := Segments(built), Segments(built + [added]);
    assert after == before + [added.segment];
    assert after[..|after| - 1] == before;
  }

  lemma GrowExtends(built: seq<BuiltSegment>, added: Segment)
    requires built != [] && Tiles(Segments(built), added.logical) && added.len > 0
    requires var last := built[|built| - 1].segment;
      match added
      case Read(_, physical, _) => last.Read? && last.physical + last.len == physical
      case ZeroFill(_, _, reason) => last.ZeroFill? && last.reason == reason
    ensures Extended(Segments(built), Segments(Grow(built, added.len)), added)
  {
    var before, after := Segments(built), Segments(Grow(built, added.len));
    var rest, last := before[..|before| - 1], before[|before| - 1];
    var grown := last.(len := last.len + added.len);
    assert before == rest + [last] && after == rest + [grown];
    assert after[..|after| - 1] == rest;
    TilesStart(rest, last.logical);
    forall limit: nat
      ensures ReadsWithin(after, limit) <==> ReadsWithin(before, limit) && ReadsWithin([added], limit)
    {
      assert ReadsWithin(after, limit) <==> ReadsWithin(rest, limit) && ReadsWithin([grown], limit);
      assert ReadsWithin(before, limit) <==> ReadsWithin(rest, limit) && ReadsWithin([last], limit);
      assert grown in [grown] && last in [last] && added in [added];
    }
    assert NeedsBestEffort(before) <==> NeedsBestEffort(rest) || (last.ZeroFill? && last.reason != SparseZero);
    assert NeedsBestEffort(after) <==> NeedsBestEffort(rest) || (grown.ZeroFill? && grown.reason != SparseZero);
  }

  lemma {:induction false} TilesStart(segments: seq<Segment>, end: int)
    requires Tiles(segments, end)
    ensures end >= 0 && forall s :: s in segments ==> s.End() <= end && s.len > 0
  {
    if segments != [] {
      var rest, last := segments[..|segments| - 1], segments[|segments| - 1];
      TilesStart(rest, last.logical);
      assert segments == rest + [last];
    }
  }

  class PlanBuilder {
    var built: seq<BuiltSegment>
    var requiresBestEffort: bool
    const policy: Policy
    const maxSegments: nat

    constructor (policy: Policy, maxSegments: nat)
      ensures built == [] && !requiresBestEffort && this.policy == policy && this.maxSegments == maxSegments
    {
      this.policy, this.maxSegments := policy, maxSegments;
      built, requiresBestEffort := [], false;
    }

    /** The list tells the extents in `done`, up to `cursor`, and has no segment too many. */
    ghost predicate Reached(done: seq<ExtentRun>, cursor: nat, sourceLen: nat)
      reads this
    {
      && Progress(Segments(built), requiresBestEffort, policy, done, cursor, sourceLen)
      && CutExactly(built, done, cursor)
    }

    method PushRead(logical: nat, physical: nat, len: nat, availability: Availability)
      returns (r: Result<(), PlanError>)
      requires Tiles(Segments(built), logical) && len > 0
      modifies this
      ensures requiresBestEffort == old(requiresBestEffort) && |built| <= Max(old(|built|), maxSegments)
      ensures r.Ok? ==> Extended(old(Segments(built)), Segments(built), Read(logical, physical, len))
      ensures r.Ok? ==> built == Merged(old(built), BuiltSegment(Read(logical, physical, len), Some(availability)))
      ensures r.Err? ==> r.error == SegmentLimitExceeded && built == old(built) && |built| >= maxSegments
      ensures r.Err? ==> !Joinable(built, BuiltSegment(Read(logical, physical, len), Some(availability)))
    {
      var added := Read(logical, physical, len);
      if built != [] && built[|built| - 1].readAvailability == Some(availability) && built[|built| - 1].segment.Read? {
        var last := built[|built| - 1].segment;
        if last.logical + last.len == logical && last.physical + last.len == physical {
          GrowExtends(built, added);
          built := Grow(built, len);
          return Ok(());
        }
      }
      r := Push(BuiltSegment(added, Some(availability)));
    }

    method PushZero(logical: nat, len: nat, reason: ZeroReason) returns (r: Result<(), PlanError>)
      requires Tiles(Segments(built), logical) && len > 0
      modifies this
      ensures r.Ok? ==>
        && Extended(old(Segments(built)), Segments(built), ZeroFill(logical, len, reason))
        && built == Merged(old(built), BuiltSegment(ZeroFill(logical, len, reason), None))
        && requiresBestEffort == (old(requiresBestEffort) || reason != SparseZero)
        && (policy == CompleteOnly ==> reason == SparseZero)
      ensures r.Err? ==> built == old(built)
      ensures |built| <= Max(old(|built|), maxSegments)
      ensures r.Err? && policy == CompleteOnly && reason != SparseZero ==> r.error == UnavailableContent(reason)
      ensures r.Err? && !(policy == CompleteOnly && reason != SparseZero) ==>
        r.error == SegmentLimitExceeded && |built| >= maxSegments
        && !Joinable(built, BuiltSegment(ZeroFill(logical, len, reason), None))
    {
      var added := ZeroFill(logical, len, reason);
      if reason != SparseZero {
        if policy == CompleteOnly {
          return Err(UnavailableContent(reason));
        }
        requiresBestEffort := true;
      }
      if built != [] && built[|built| - 1].segment.ZeroFill? {
        var last := built[|built| - 1].segment;
        if last.logical + last.len == logical && last.reason == reason {
          GrowExtends(built, added);
          built := Grow(built, len);
          return Ok(());
        }
      }
      r := Push(BuiltSegment(added, None));
    }

    method Push(added: BuiltSegment) returns (r: Result<(), PlanError>)
      requires Tiles(Segments(built), added.segment.logical) && added.segment.len > 0
      requires built != [] && built[|built| - 1].segment.ZeroFill? && added.segment.ZeroFill? ==>
        built[|built| - 1].segment.reason != added.segment.reason
      modifies this`built
      ensures |built| <= Max(old(|built|), maxSegments)
      ensures r.Ok? ==> Extended(old(Segments(built)), Segments(built), added.segment) && built == old(built) + [added]
      ensures r.Err? ==> r.error == SegmentLimitExceeded && built == old(built) && |built| >= maxSegments
    {
      if |built| >= maxSegments {
        return Err(SegmentLimitExceeded);
      }
      PushExtends(built, added);
      built := built + [added];
      return Ok(());
    }
  }

  // ---------- Segments only where they are needed ----------

  ghost predicate StartsAt(built: seq<BuiltSegment>, x: int) {
    exists i :: 0 <= i < |built| && built[i].segment.logical == x
  }

  /** The segment ends with byte `cursor - 1` of the extents. */
  ghost predicate EndsAs(last: BuiltSegment, extents: seq<ExtentRun>, cursor: nat) {
    && last.segment.End() == cursor && SegmentMeaning(last.segment, cursor - 1) == ByteMeaning(extents, cursor - 1)
    && (last.segment.Read? ==> last.readAvailability == AvailabilityOf(extents, cursor - 1))
  }

  /** Segments start exactly where the extents require it. */
  ghost predicate CutExactly(built: seq<BuiltSegment>, extents: seq<ExtentRun>, cursor: nat) {
    && |built| == SegmentCount(extents, cursor)
    && (forall x: int :: 0 <= x < cursor ==> (StartsAt(built, x) <==> Starts(extents, x)))
    && (forall i :: 0 <= i < |built| ==> built[i].segment.logical < cursor)
    && (built == [] <==> cursor == 0)
    && (built != [] ==> EndsAs(built[|built| - 1], extents, cursor))
  }

  /** Byte `b` of the extents is what the segment says. */
  ghost predicate Stands(added: BuiltSegment, extents: seq<ExtentRun>, b: int) {
    && ByteMeaning(extents, b) == SegmentMeaning(added.segment, b)
    && (added.segment.Read? ==> added.readAvailability == AvailabilityOf(extents, b))
  }

  /** The builder's own test for growing the last segment is the extents' test. */
  lemma JoinsWhereContinued(built: seq<BuiltSegment>, added: BuiltSegment, extents: seq<ExtentRun>, cursor: nat)
    requires cursor == added.segment.logical && Stands(added, extents, cursor)
    requires (built == [] <==> cursor == 0) && (built != [] ==> EndsAs(built[|built| - 1], extents, cursor))
    ensures Joinable(built, added) <==> !Starts(extents, cursor)
  {
    hide CoverOf, ByteMeaning, AvailabilityOf;
  }

  lemma StretchContinues(added: BuiltSegment, extents: seq<ExtentRun>)
    requires forall b: int :: added.segment.logical <= b < added.segment.End() ==> Stands(added, extents, b)
    ensures forall x: int :: added.segment.logical < x < added.segment.End() ==> Continues(extents, x)
  {
    hide CoverOf, ByteMeaning, AvailabilityOf;
    forall x: int | added.segment.logical < x < added.segment.End()
      ensures Continues(extents, x)
    {
      assert Stands(added, extents, x) && Stands(added, extents, x - 1);
    }
  }

  /** No list of segments that says the same of every byte is shorter than the number of places where one must start. */
  lemma {:induction false} FewestSegments(built: seq<BuiltSegment>, extents: seq<ExtentRun>, size: nat)
    requires Tiles(Segments(built), size)
    requires forall i, b: int ::
      0 <= i < |built| && built[i].segment.logical <= b < built[i].segment.End() ==> Stands(built[i], extents, b)
    ensures SegmentCount(extents, size) <= |built|
    decreases |built|
  {
    hide Stands, Starts, Continues;
    if built != [] {
      var rest, last := built[..|built| - 1], built[|built| - 1];
      assert Segments(built)[..|built| - 1] == Segments(rest);
      FewestSegments(rest, extents, last.segment.logical);
      StretchContinues(last, extents);
      CountStretch(extents, last.segment.logical, size);
    }
  }

  lemma MergedStarts(built: seq<BuiltSegment>, added: BuiltSegment, x: int)
    ensures StartsAt(Merged(built, added), x) <==>
      StartsAt(built, x) || (!Joinable(built, added) && x == added.segment.logical)
    ensures (forall i :: 0 <= i < |built| ==> built[i].segment.logical < added.segment.logical) ==>
      forall i :: 0 <= i < |Merged(built, added)| ==> Merged(built, added)[i].segment.logical <= added.segment.logical
  {
    var merged := Merged(built, added);
    assert forall i :: 0 <= i < |built| ==> merged[i].segment.logical == built[i].segment.logical;
    if !Joinable(built, added) {
      assert merged[|built|] == added;
    }
  }

  /** One more segment, joined or pushed, for bytes that mean what it says. */
  lemma MergedCuts(built: seq<BuiltSegment>, added: BuiltSegment, done: seq<ExtentRun>, more: seq<ExtentRun>,
                   cursor: nat)
    requires CutExactly(built, done, cursor) && cursor == added.segment.logical && added.segment.len > 0
    requires Agree(done, more, cursor)
    requires forall b: int :: cursor <= b < added.segment.End() ==> Stands(added, more, b)
    ensures CutExactly(Merged(built, added), more, added.segment.End())
    ensures |Merged(built, added)| == SegmentCount(more, added.segment.End())
  {
    hide CoverOf, Continues, Starts, ByteMeaning, AvailabilityOf;
    var end := added.segment.End();
    CountAgree(done, more, cursor);
    SameEnd(built, done, more, cursor);
    assert Stands(added, more, cursor) && Stands(added, more, end - 1);
    JoinsWhereContinued(built, added, more, cursor);
    StretchContinues(added, more);
    StretchStarts(more, cursor, end);
    CountStretch(more, cursor, end);
    hide Joinable, Merged, StartsAt, SegmentCount, Stands;
    forall x: int | 0 <= x < end
      ensures StartsAt(Merged(built, added), x) <==> Starts(more, x)
    {
      MergedStarts(built, added, x);
      NotYetStarted(built, cursor, x);
    }
    MergedStarts(built, added, cursor);
    MergedEnd(built, added, more, cursor);
  }

  lemma NotYetStarted(built: seq<BuiltSegment>, cursor: nat, x: int)
    requires forall i :: 0 <= i < |built| ==> built[i].segment.logical < cursor
    ensures StartsAt(built, x) ==> x < cursor
  {
  }

  lemma StretchStarts(extents: seq<ExtentRun>, lo: nat, hi: int)
    requires forall x: int :: lo < x < hi ==> Continues(extents, x)
    ensures forall x: int :: lo < x < hi ==> !Starts(extents, x)
  {
    hide Continues;
  }

  lemma SameEnd(built: seq<BuiltSegment>, done: seq<ExtentRun>, more: seq<ExtentRun>, cursor: nat)
    requires Agree(done, more, cursor) && built != [] ==> cursor > 0 && EndsAs(built[|built| - 1], done, cursor)
    ensures Agree(done, more, cursor) && built != [] ==> EndsAs(built[|built| - 1], more, cursor)
  {
    hide CoverOf;
  }

  lemma MergedEnd(built: seq<BuiltSegment>, added: BuiltSegment, extents: seq<ExtentRun>, cursor: nat)
    requires cursor == added.segment.logical && added.segment.len > 0 && Stands(added, extents, added.segment.End() - 1)
    ensures var merged := Merged(built, added);
      && merged != [] && |merged| == |built| + (if Joinable(built, added) then 0 else 1)
      && EndsAs(merged[|merged| - 1], extents, added.segment.End())
  {
    hide CoverOf, ByteMeaning, AvailabilityOf;
  }

  // ---------- Planning a candidate ----------

  ghost predicate FitsLogically(extent: ExtentRun, size: nat) {
    extent.len > 0 && extent.End() <= size
  }

  ghost predicate FitsPhysically(extent: ExtentRun, sourceLen: nat) {
    Readable(extent) ==> extent.physical.value + extent.len <= sourceLen
  }

  /** No byte belongs to two extents, and no extent is listed twice. */
  ghost predicate Disjoint(extents: seq<ExtentRun>) {
    && (forall e, f, b: int :: e in extents && f in extents && e.Covers(b) && f.Covers(b) ==> e == f)
    && (forall e :: e in extents ==> multiset(extents)[e] == 1)
  }

  /** The geometry the planner accepts. */
  ghost predicate Plannable(candidate: Candidate, sourceLen: nat) {
    && (forall e :: e in candidate.extents ==> FitsLogically(e, candidate.size) && FitsPhysically(e, sourceLen))
    && Disjoint(candidate.extents)
  }

  /** Byte `b` of the plan is what the extent covering it says, or missing when none does. */
  ghost predicate Explained(segments: seq<Segment>, extents: seq<ExtentRun>, b: int) {
    && (forall e :: e in extents && e.Covers(b) ==> PlanMeaning(segments, b) == ExtentMeaning(e, b))
    && ((forall e :: e in extents ==> !e.Covers(b)) ==> PlanMeaning(segments, b) == Zero(MissingExtent))
  }

  /** Segments start exactly where the extents require it, so there are as few as possible. */
  ghost predicate CutWhereNeeded(segments: seq<Segment>, extents: seq<ExtentRun>, size: nat) {
    && |segments| == SegmentCount(extents, size)
    && forall x: int :: 0 <= x < size ==>
         ((exists i :: 0 <= i < |segments| && segments[i].logical == x) <==> Starts(extents, x))
  }

  lemma FinishCuts(built: seq<BuiltSegment>, candidate: Candidate, ordered: seq<ExtentRun>)
    requires CutExactly(built, ordered, candidate.size) && Disjoint(candidate.extents)
    requires forall e :: e in ordered <==> e in candidate.extents
    ensures CutWhereNeeded(Segments(built), candidate.extents, candidate.size)
  {
    DisjointAgree(ordered, candidate.extents, candidate.size);
    CountAgree(ordered, candidate.extents, candidate.size);
    hide CoverOf, Starts, SegmentCount, Disjoint, EndsAs;
    forall x: int | 0 <= x < candidate.size
      ensures (exists i :: 0 <= i < |built| && Segments(built)[i].logical == x) <==> Starts(candidate.extents, x)
    {
      assert StartsAt(built, x) <==> Starts(ordered, x);
      assert forall i :: 0 <= i < |built| ==> Segments(built)[i].logical == built[i].segment.logical;
    }
  }

  /** Everything a finished plan promises about its candidate. */
  ghost predicate PlanOf(plan: ContentPlan, candidate: Candidate, sourceLen: nat) {
    && plan.candidateId == candidate.id && plan.logicalSize == candidate.size
    && Tiles(plan.segments, candidate.size)
    && (forall b :: 0 <= b < candidate.size ==> Explained(plan.segments, candidate.extents, b))
    && ReadsWithin(plan.segments, sourceLen)
    && CutWhereNeeded(plan.segments, candidate.extents, candidate.size)
    && (plan.requiresBestEffort <==> NeedsBestEffort(plan.segments))
    && (plan.policy == CompleteOnly ==> !NeedsBestEffort(plan.segments))
  }

  datatype Mapping = MapRead(physical: nat) | MapZero(reason: ZeroReason)

  function ReadableMapping(extent: ExtentRun, sourceLen: nat): (r: Result<Mapping, PlanError>)
    ensures r.Ok? <==> !(Readable(extent) && (extent.physical.value + extent.len > Min(sourceLen, U64_LIMIT - 1)))
    ensures r.Ok? ==> match r.value
      case MapRead(physical) => ExtentMeaning(extent, extent.logical) == Physical(physical) && Readable(extent)
      case MapZero(reason) => ExtentMeaning(extent, extent.logical) == Zero(reason)
    ensures r.Err? ==> r.error.PhysicalRangeOverflow? || r.error.PhysicalRangeOutOfBounds?
  {
    match extent.availability
    case FreeInSnapshot | Resident =>
      if extent.physical.None? then Ok(MapZero(UnknownAvailability))
      else if extent.physical.value + extent.len >= U64_LIMIT then Err(PhysicalRangeOverflow)
      else if extent.physical.value + extent.len > sourceLen then Err(PhysicalRangeOutOfBounds)
      else Ok(MapRead(extent.physical.value))
    case Sparse => Ok(MapZero(SparseZero))
    case CurrentlyAllocated => Ok(MapZero(AllocatedZero))
    case OutOfVolume => Ok(MapZero(OutOfVolumeZero))
    case ReadFailed => Ok(MapZero(PreviouslyReadFailed))
    case Zeroed => Ok(MapZero(ObservedZeroed))
    case Unknown => Ok(MapZero(UnknownAvailability))
  }

  /** Which of the two physical limits is named. */
  lemma MappingRefused(extent: ExtentRun, sourceLen: nat)
    ensures var r := ReadableMapping(extent, sourceLen);
      && (r == Err(PhysicalRangeOverflow) <==>
            Readable(extent) && extent.physical.value + extent.len >= 0x1_0000_0000_0000_0000)
      && (r == Err(PhysicalRangeOutOfBounds) <==>
            Readable(extent) && sourceLen < extent.physical.value + extent.len < 0x1_0000_0000_0000_0000)
  {
  }

  /** What is wrong with extent `k`. */
  predicate Misfit(extents: seq<ExtentRun>, size: nat, k: nat, error: PlanError) {
    && k < |extents|
    && match error
      case ZeroLengthExtent(index) => index == k && extents[k].len == 0
      case LogicalRangeOverflow => extents[k].logical + extents[k].len >= U64_LIMIT
      case LogicalRangeOutOfBounds => size < extents[k].logical + extents[k].len < U64_LIMIT
      case _ => false
  }

  method CheckExtents(candidate: Candidate) returns (r: Result<(), PlanError>)
    requires candidate.size < U64_LIMIT
    ensures r.Ok? <==> forall e :: e in candidate.extents ==> FitsLogically(e, candidate.size)
    ensures r.Err? ==> exists k :: Misfit(candidate.extents, candidate.size, k, r.error)
    ensures r.Err? ==> r.error.ZeroLengthExtent? || r.error.LogicalRangeOverflow? || r.error.LogicalRangeOutOfBounds?
  {
    for index := 0 to |candidate.extents|
      invariant forall k :: 0 <= k < index ==> FitsLogically(candidate.extents[k], candidate.size)
    {
      var extent := candidate.extents[index];
      assert extent in candidate.extents;
      if extent.len == 0 {
        assert Misfit(candidate.extents, candidate.size, index, ZeroLengthExtent(index));
        return Err(ZeroLengthExtent(index));
      }
      if extent.logical + extent.len >= U64_LIMIT {
        assert Misfit(candidate.extents, candidate.size, index, LogicalRangeOverflow);
        return Err(LogicalRangeOverflow);
      }
      if extent.logical + extent.len > candidate.size {
        assert Misfit(candidate.extents, candidate.size, index, LogicalRangeOutOfBounds);
        return Err(LogicalRangeOutOfBounds);
      }
    }
    return Ok(());
  }

  ghost predicate AllExplained(segments: seq<Segment>, extents: seq<ExtentRun>, end: int) {
    forall b :: 0 <= b < end ==> Explained(segments, extents, b)
  }

  ghost predicate AllBefore(extents: seq<ExtentRun>, end: int) {
    forall e :: e in extents ==> e.End() <= end
  }

  /** A gap segment: nothing covers those bytes. */
  lemma GapExplained(before: seq<Segment>, after: seq<Segment>, extents: seq<ExtentRun>, gap: Segment)
    requires AllExplained(before, extents, gap.logical) && AllBefore(extents, gap.logical)
    requires gap.ZeroFill? && gap.reason == MissingExtent && Extended(before, after, gap)
    ensures AllExplained(after, extents, gap.End())
  {
    forall b | 0 <= b < gap.End()
      ensures Explained(after, extents, b)
    {
      assert b < gap.logical ==> Explained(before, extents, b);
      assert b >= gap.logical ==> PlanMeaning(after, b) == SegmentMeaning(gap, b);
    }
  }

  /** A segment for one more extent, starting where the plan ends. */
  lemma ExtentExplained(before: seq<Segment>, after: seq<Segment>, extents: seq<ExtentRun>, next: ExtentRun,
                        added: Segment)
    requires AllExplained(before, extents, next.logical) && AllBefore(extents, next.logical)
    requires added.logical == next.logical && added.len == next.len && Extended(before, after, added)
    requires SegmentMeaning(added, next.logical) == ExtentMeaning(next, next.logical)
    ensures AllExplained(after, extents + [next], next.End()) && AllBefore(extents + [next], next.End())
  {
    forall b | 0 <= b < next.End()
      ensures Explained(after, extents + [next], b)
    {
      assert next in extents + [next];
      if b < next.logical {
        assert Explained(before, extents, b);
        assert forall e :: e in extents + [next] && e.Covers(b) ==> e in extents;
      } else {
        assert SegmentMeaning(added, b) == ExtentMeaning(next, b);
      }
    }
  }

  /** The builder's state after the extents in `done`. */
  ghost predicate Progress(segments: seq<Segment>, bestEffort: bool, policy: Policy, done: seq<ExtentRun>,
                           cursor: nat, sourceLen: nat)
  {
    && Tiles(segments, cursor) && AllExplained(segments, done, cursor) && AllBefore(done, cursor)
    && ReadsWithin(segments, sourceLen)
    && (bestEffort <==> NeedsBestEffort(segments))
    && (policy == CompleteOnly ==> !NeedsBestEffort(segments))
  }

  lemma ProgressTiles(segments: seq<Segment>, bestEffort: bool, policy: Policy, done: seq<ExtentRun>, cursor: nat,
                      sourceLen: nat)
    requires Progress(segments, bestEffort, policy, done, cursor, sourceLen)
    ensures Tiles(segments, cursor)
  {
  }

  lemma GapProgress(before: seq<Segment>, after: seq<Segment>, bestEffort: bool, policy: Policy, done: seq<ExtentRun>,
                    cursor: nat, end: nat, sourceLen: nat)
    requires Progress(before, bestEffort, policy, done, cursor, sourceLen) && cursor < end
    requires Extended(before, after, ZeroFill(cursor, end - cursor, MissingExtent)) && policy != CompleteOnly
    ensures Progress(after, true, policy, done, end, sourceLen) && Tiles(after, end) && |after| <= |before| + 1
  {
    GapExplained(before, after, done, ZeroFill(cursor, end - cursor, MissingExtent));
  }

  lemma ExtentProgress(before: seq<Segment>, after: seq<Segment>, bestEffort: bool, policy: Policy,
                       done: seq<ExtentRun>, next: ExtentRun, added: Segment, sourceLen: nat)
    requires Progress(before, bestEffort, policy, done, next.logical, sourceLen)
    requires added.logical == next.logical && added.len == next.len && Extended(before, after, added)
    requires SegmentMeaning(added, next.logical) == ExtentMeaning(next, next.logical)
    requires added.Read? ==> added.physical + added.len <= sourceLen
    requires policy == CompleteOnly && added.ZeroFill? ==> added.reason == SparseZero
    ensures Progress(after, bestEffort || (added.ZeroFill? && added.reason != SparseZero), policy, done + [next],
                     next.End(), sourceLen)
    ensures Tiles(after, next.End()) && |after| <= |before| + 1
  {
    ExtentExplained(before, after, done, next, added);
    assert added in [added];
  }

  /** Sorted by start, each extent begins at or after the end of the ones before it. */
  ghost predicate Ordered(extents: seq<ExtentRun>) {
    forall j, k :: 0 <= j < k < |extents| ==> extents[j].End() <= extents[k].logical
  }

  lemma OrderedDisjoint(extents: seq<ExtentRun>, ordered: seq<ExtentRun>)
    requires multiset(ordered) == multiset(extents) && (forall e :: e in ordered <==> e in extents)
    requires Ordered(ordered) && forall e :: e in ordered ==> e.len > 0
    ensures Disjoint(extents)
  {
    forall e | e in extents
      ensures multiset(extents)[e] == 1
    {
      var k :| 0 <= k < |ordered| && ordered[k] == e;
      OnceInOrdered(ordered, k);
    }
  }

  lemma OnceInOrdered(ordered: seq<ExtentRun>, k: nat)
    requires Ordered(ordered) && k < |ordered| && ordered[k].len > 0
    ensures multiset(ordered)[ordered[k]] == 1
  {
    var e, left, right := ordered[k], ordered[..k], ordered[k + 1..];
    assert ordered == left + [e] + right;
    assert forall j :: 0 <= j < |left| ==> left[j].End() <= e.logical;
    assert forall j :: 0 <= j < |right| ==> e.End() <= right[j].logical;
    assert e !in left && e !in right;
  }

  lemma OverlapNotDisjoint(extents: seq<ExtentRun>, ordered: seq<ExtentRun>, i: nat, k: nat)
    requires multiset(ordered) == multiset(extents) && (forall e :: e in ordered <==> e in extents)
    requires i < k < |ordered| && ordered[i].logical <= ordered[k].logical < ordered[i].End() && ordered[k].len > 0
    ensures !Disjoint(extents)
  {
    var e, f := ordered[i], ordered[k];
    assert e in extents && f in extents && e.Covers(f.logical) && f.Covers(f.logical);
    if e == f {
      assert ordered == ordered[..k] + ordered[k..];
      assert e in ordered[..k] && e in ordered[k..];
      assert multiset(ordered)[e] >= 2;
    }
  }

  /** The body of the planning loop: the gap before the extent, then the extent itself. */
  method PlanExtent(builder: PlanBuilder, extent: ExtentRun, cursor: nat, sourceLen: U64, ghost done: seq<ExtentRun>)
    returns (r: Result<(), PlanError>)
    requires builder.Reached(done, cursor, sourceLen) && cursor <= extent.logical && extent.len > 0
    modifies builder
    ensures |builder.built| <= Max(old(|builder.built|), builder.maxSegments)
    ensures r.Ok? ==>
      && builder.Reached(done + [extent], extent.End(), sourceLen)
      && |builder.built| <= old(|builder.built|) + 2
      && FitsPhysically(extent, sourceLen)
    ensures r.Err? ==>
      match r.error
      case SegmentLimitExceeded =>
        && builder.maxSegments <= old(|builder.built|) + 1
        && (builder.maxSegments < SegmentCount(done, extent.logical)
            || builder.maxSegments < SegmentCount(done + [extent], extent.End()))
      case UnavailableContent(reason) =>
        builder.policy == CompleteOnly && reason != SparseZero && ZeroNext(extent, cursor, reason)
      case PhysicalRangeOverflow | PhysicalRangeOutOfBounds => !FitsPhysically(extent, sourceLen)
      case _ => false
  {
    hide PlanBuilder.Reached, SegmentCount;
    if extent.logical > cursor {
      var gap := PushGap(builder, cursor, extent.logical, sourceLen, done);
      if gap.Err? {
        return gap;
      }
    }
    r := PushMapped(builder, extent, sourceLen, done);
  }

  /** The extent, or the gap before it, stands for zeros of this kind. */
  ghost predicate ZeroNext(extent: ExtentRun, cursor: nat, reason: ZeroReason) {
    || (reason == MissingExtent && cursor < extent.logical)
    || ExtentMeaning(extent, extent.logical) == Zero(reason)
  }

  /** Fills `[cursor, end)`, which no extent covers. */
  method PushGap(builder: PlanBuilder, cursor: nat, end: nat, sourceLen: U64, ghost done: seq<ExtentRun>)
    returns (r: Result<(), PlanError>)
    requires builder.Reached(done, cursor, sourceLen) && cursor < end
    modifies builder
    ensures |builder.built| <= Max(old(|builder.built|), builder.maxSegments)
    ensures r.Ok? ==> builder.Reached(done, end, sourceLen) && |builder.built| <= old(|builder.built|) + 1
    ensures r.Err? ==>
      match r.error
      case SegmentLimitExceeded =>
        builder.maxSegments <= old(|builder.built|) && builder.maxSegments < SegmentCount(done, end)
      case UnavailableContent(reason) => builder.policy == CompleteOnly && reason == MissingExtent
      case _ => false
  {
    hide Progress, Extended, Tiles, CutExactly, Merged, Joinable, SegmentCount, Segments;
    ghost var before, flag := Segments(builder.built), builder.requiresBestEffort;
    ProgressTiles(before, flag, builder.policy, done, cursor, sourceLen);
    GapCuts(before, builder.built, flag, builder.policy, done, cursor, end, sourceLen);
    r := builder.PushZero(cursor, end - cursor, MissingExtent);
    if r.Ok? {
      GapProgress(before, Segments(builder.built), flag, builder.policy, done, cursor, end, sourceLen);
    }
  }

  /** Appends one extent as what it maps to. */
  method PushMapped(builder: PlanBuilder, extent: ExtentRun, sourceLen: U64, ghost done: seq<ExtentRun>)
    returns (r: Result<(), PlanError>)
    requires builder.Reached(done, extent.logical, sourceLen) && extent.len > 0
    modifies builder
    ensures |builder.built| <= Max(old(|builder.built|), builder.maxSegments)
    ensures r.Ok? ==>
      && builder.Reached(done + [extent], extent.End(), sourceLen)
      && |builder.built| <= old(|builder.built|) + 1
      && FitsPhysically(extent, sourceLen)
    ensures r.Err? ==>
      match r.error
      case SegmentLimitExceeded =>
        builder.maxSegments <= old(|builder.built|) && builder.maxSegments < SegmentCount(done + [extent], extent.End())
      case UnavailableContent(reason) =>
        builder.policy == CompleteOnly && reason != SparseZero && ExtentMeaning(extent, extent.logical) == Zero(reason)
      case PhysicalRangeOverflow | PhysicalRangeOutOfBounds => !FitsPhysically(extent, sourceLen)
      case _ => false
  {
    hide PlanBuilder.Reached, SegmentCount;
    var mapping := ReadableMapping(extent, sourceLen);
    match mapping {
      case Err(error) => r := Err(error);
      case Ok(MapRead(physical)) => r := PushReadable(builder, extent, physical, sourceLen, done);
      case Ok(MapZero(reason)) => r := PushReason(builder, extent, reason, sourceLen, done);
    }
  }

  method PushReadable(builder: PlanBuilder, extent: ExtentRun, physical: nat, sourceLen: U64,
                      ghost done: seq<ExtentRun>)
    returns (r: Result<(), PlanError>)
    requires builder.Reached(done, extent.logical, sourceLen) && extent.len > 0 && physical + extent.len <= sourceLen
    requires ExtentMeaning(extent, extent.logical) == Physical(physical)
    modifies builder
    ensures |builder.built| <= Max(old(|builder.built|), builder.maxSegments)
    ensures r.Ok? ==>
      builder.Reached(done + [extent], extent.End(), sourceLen) && |builder.built| <= old(|builder.built|) + 1
    ensures r.Err? ==>
      && r.error == SegmentLimitExceeded && builder.maxSegments <= old(|builder.built|)
      && builder.maxSegments < SegmentCount(done + [extent], extent.End())
  {
    assert Tiles(Segments(builder.built), extent.logical);
    hide Progress, Extended, Tiles, CutExactly, Merged, Joinable, SegmentCount, Segments;
    ghost var before, flag := Segments(builder.built), builder.requiresBestEffort;
    ghost var added := Read(extent.logical, physical, extent.len);
    ExtentCuts(builder.built, BuiltSegment(added, Some(extent.availability)), done, extent);
    r := builder.PushRead(extent.logical, physical, extent.len, extent.availability);
    if r.Ok? {
      ExtentProgress(before, Segments(builder.built), flag, builder.policy, done, extent, added, sourceLen);
    }
  }

  method PushReason(builder: PlanBuilder, extent: ExtentRun, reason: ZeroReason, sourceLen: U64,
                    ghost done: seq<ExtentRun>)
    returns (r: Result<(), PlanError>)
    requires builder.Reached(done, extent.logical, sourceLen) && extent.len > 0
    requires ExtentMeaning(extent, extent.logical) == Zero(reason)
    modifies builder
    ensures |builder.built| <= Max(old(|builder.built|), builder.maxSegments)
    ensures r.Ok? ==>
      builder.Reached(done + [extent], extent.End(), sourceLen) && |builder.built| <= old(|builder.built|) + 1
    ensures r.Err? ==>
      match r.error
      case SegmentLimitExceeded =>
        builder.maxSegments <= old(|builder.built|) && builder.maxSegments < SegmentCount(done + [extent], extent.End())
      case UnavailableContent(refused) =>
        builder.policy == CompleteOnly && refused != SparseZero && refused == reason
      case _ => false
  {
    assert Tiles(Segments(builder.built), extent.logical);
    hide Progress, Extended, Tiles, CutExactly, Merged, Joinable, SegmentCount, Segments;
    ghost var before, flag := Segments(builder.built), builder.requiresBestEffort;
    ghost var added := ZeroFill(extent.logical, extent.len, reason);
    ExtentCuts(builder.built, BuiltSegment(added, None), done, extent);
    r := builder.PushZero(extent.logical, extent.len, reason);
    if r.Ok? {
      ExtentProgress(before, Segments(builder.built), flag, builder.policy, done, extent, added, sourceLen);
    }
  }

  /** A gap before the next extent, or after the last. */
  lemma GapCuts(segments: seq<Segment>, built: seq<BuiltSegment>, bestEffort: bool, policy: Policy,
                done: seq<ExtentRun>, cursor: nat, end: nat, sourceLen: nat)
    requires Progress(segments, bestEffort, policy, done, cursor, sourceLen) && CutExactly(built, done, cursor)
    requires cursor < end
    ensures var added := BuiltSegment(ZeroFill(cursor, end - cursor, MissingExtent), None);
      && CutExactly(Merged(built, added), done, end)
      && |built| + (if Joinable(built, added) then 0 else 1) == SegmentCount(done, end)
  {
    hide CutExactly, Merged, SegmentCount;
    var added := BuiltSegment(ZeroFill(cursor, end - cursor, MissingExtent), None);
    forall b: int | cursor <= b < end
      ensures Stands(added, done, b)
    {
      assert AllBefore(done, cursor);
    }
    hide Progress, Joinable;
    MergedCuts(built, added, done, done, cursor);
    MergedLength(built, added);
  }

  lemma MergedLength(built: seq<BuiltSegment>, added: BuiltSegment)
    ensures |Merged(built, added)| == |built| + if Joinable(built, added) then 0 else 1
  {
  }

  /** One more extent, starting where the segments end. */
  lemma ExtentCuts(built: seq<BuiltSegment>, added: BuiltSegment, done: seq<ExtentRun>, next: ExtentRun)
    requires CutExactly(built, done, next.logical) && next.len > 0
    requires added.segment.logical == next.logical && added.segment.len == next.len
    requires SegmentMeaning(added.segment, next.logical) == ExtentMeaning(next, next.logical)
    requires added.segment.Read? ==> added.readAvailability == Some(next.availability)
    ensures CutExactly(Merged(built, added), done + [next], next.End())
    ensures |built| + (if Joinable(built, added) then 0 else 1) == SegmentCount(done + [next], next.End())
  {
    hide CutExactly, Merged, SegmentCount, Joinable;
    AgreeSnoc(done, next);
    forall b: int | next.logical <= b < next.End()
      ensures Stands(added, done + [next], b)
    {
      assert next.Covers(b);
    }
    MergedCuts(built, added, done, done + [next], next.logical);
    MergedLength(built, added);
  }

  /** A plannable candidate's sorted extents are in order to the end. */
  lemma PlannableOrdered(ordered: seq<ExtentRun>, candidate: Candidate, sourceLen: nat)
    requires multiset(ordered) == multiset(candidate.extents) && (forall e :: e in ordered <==> e in candidate.extents)
    requires SortedBy((e: ExtentRun) => e.logical, ordered) && Plannable(candidate, sourceLen)
    ensures Ordered(ordered)
  {
    forall j, k | 0 <= j < k < |ordered|
      ensures ordered[j].End() <= ordered[k].logical
    {
      var key := (e: ExtentRun) => e.logical;
      assert key(ordered[j]) <= key(ordered[k]);
      assert ordered[k] in ordered;
      if ordered[k].logical < ordered[j].End() {
        OverlapNotDisjoint(candidate.extents, ordered, j, k);
      }
    }
  }

  lemma {:induction false} DisjointAgree(a: seq<ExtentRun>, b: seq<ExtentRun>, n: int)
    requires Disjoint(b) && forall e :: e in a <==> e in b
    ensures Agree(a, b, n)
  {
    hide CoverOf;
    forall x: int | 0 <= x < n
      ensures CoverOf(a, x) == CoverOf(b, x)
    {
    }
  }

  /** Segments needed by the first extents are needed by all of them. */
  lemma PrefixNeeds(ordered: seq<ExtentRun>, candidate: Candidate, sourceLen: nat, k: nat, end: nat)
    requires multiset(ordered) == multiset(candidate.extents) && (forall e :: e in ordered <==> e in candidate.extents)
    requires SortedBy((e: ExtentRun) => e.logical, ordered) && Plannable(candidate, sourceLen)
    requires k <= |ordered| && end <= candidate.size && forall j :: k <= j < |ordered| ==> end <= ordered[j].logical
    ensures SegmentCount(ordered[..k], end) <= SegmentCount(candidate.extents, candidate.size)
  {
    hide CoverOf, SegmentCount;
    AgreePrefix(ordered, k, end);
    CountAgree(ordered[..k], ordered, end);
    DisjointAgree(ordered, candidate.extents, end);
    CountAgree(ordered, candidate.extents, end);
    CountGrows(candidate.extents, end, candidate.size);
  }

  /** A candidate with sound geometry cannot be told in this many segments. */
  ghost predicate NeedsMore(candidate: Candidate, sourceLen: nat, maxSegments: nat) {
    Plannable(candidate, sourceLen) ==> maxSegments < SegmentCount(candidate.extents, candidate.size)
  }

  /** Too many segments up to or including one extent are too many for the whole file. */
  lemma LimitReal(ordered: seq<ExtentRun>, i: nat, cursor: nat, candidate: Candidate, sourceLen: nat, maxSegments: nat)
    requires i < |ordered| && Scanned(ordered, i, cursor, candidate, sourceLen)
    requires maxSegments < SegmentCount(ordered[..i], ordered[i].logical) ||
      maxSegments < SegmentCount(ordered[..i + 1], ordered[i].End())
    ensures NeedsMore(candidate, sourceLen, maxSegments)
  {
    if Plannable(candidate, sourceLen) {
      PlannableOrdered(ordered, candidate, sourceLen);
      NextStarts(ordered, i, candidate, sourceLen);
      hide SortedBy, Disjoint, SegmentCount, FitsLogically, FitsPhysically;
      PrefixNeeds(ordered, candidate, sourceLen, i, ordered[i].logical);
      PrefixNeeds(ordered, candidate, sourceLen, i + 1, ordered[i].End());
    }
  }

  lemma NextStarts(ordered: seq<ExtentRun>, i: nat, candidate: Candidate, sourceLen: nat)
    requires Ordered(ordered) && i < |ordered| && Plannable(candidate, sourceLen) && forall e :: e in ordered <==>
      e in candidate.extents
    ensures ordered[i].End() <= candidate.size
    ensures forall j :: i <= j < |ordered| ==> ordered[i].logical <= ordered[j].logical
    ensures forall j :: i < j < |ordered| ==> ordered[i].End() <= ordered[j].logical
  {
    assert ordered[i] in ordered;
  }

  lemma LastGapReal(ordered: seq<ExtentRun>, cursor: nat, candidate: Candidate, sourceLen: nat, maxSegments: nat)
    requires Scanned(ordered, |ordered|, cursor, candidate, sourceLen)
    requires maxSegments < SegmentCount(ordered, candidate.size)
    ensures NeedsMore(candidate, sourceLen, maxSegments)
  {
    assert ordered[..|ordered|] == ordered;
    if Plannable(candidate, sourceLen) {
      PrefixNeeds(ordered, candidate, sourceLen, |ordered|, candidate.size);
    }
  }

  method PlanCandidate(candidate: Candidate, sourceLen: U64, expectedSha256: Option<seq<Byte>>, policy: Policy,
                       maxSegments: nat)
    returns (r: Result<Option<ContentPlan>, PlanError>)
    requires candidate.size < U64_LIMIT
    ensures r == Ok(None) <==> candidate.kind == Directory
    ensures r.Ok? && candidate.kind == File ==>
      && PlanOf(r.value.value, candidate, sourceLen) && Plannable(candidate, sourceLen)
      && |r.value.value.segments| <= maxSegments <= MAX_CONTENT_PLAN_SEGMENTS
      && |candidate.extents| <= MAX_CONTENT_PLAN_SEGMENTS
      && r.value.value.policy == policy && r.value.value.expectedSha256 == expectedSha256
    ensures r.Err? ==>
      match r.error
      case InvalidPlanLimits => maxSegments == 0 || maxSegments > MAX_CONTENT_PLAN_SEGMENTS
      case SegmentLimitExceeded =>
        || |candidate.extents| > MAX_CONTENT_PLAN_SEGMENTS
        || (maxSegments <= 2 * |candidate.extents| && NeedsMore(candidate, sourceLen, maxSegments))
      case UnavailableContent(reason) =>
        policy == CompleteOnly && reason != SparseZero && Unavailable(candidate, reason)
      case _ => !Plannable(candidate, sourceLen)
  {
    if candidate.kind == Directory {
      return Ok(None);
    }
    if maxSegments == 0 || maxSegments > MAX_CONTENT_PLAN_SEGMENTS {
      return Err(InvalidPlanLimits);
    }
    if |candidate.extents| > MAX_CONTENT_PLAN_SEGMENTS {
      return Err(SegmentLimitExceeded);
    }
    var checked := CheckExtents(candidate);
    if checked.Err? {
      return Err(checked.error);
    }
    var ordered := SortBy((e: ExtentRun) => e.logical, candidate.extents);
    StartScan(policy, candidate, ordered, sourceLen);
    hide Progress, Extended, Tiles, Plannable, PlanOf, Scanned, Sorting.SortBy, CutExactly, NeedsMore,
         Unavailable;
    var builder := new PlanBuilder(policy, maxSegments);
    assert CutExactly([], [], 0) by {
      NoCuts();
    }
    var scanned := PlanOrdered(builder, ordered, candidate, sourceLen);
    if scanned.Err? {
      return Err(scanned.error);
    }
    var segments := seq(|builder.built|, i requires 0 <= i < |builder.built| reads builder => builder.built[i].segment);
    assert segments == Segments(builder.built);
    var plan := ContentPlan(candidate.id, candidate.size, segments, expectedSha256, builder.requiresBestEffort, policy);
    FinishPlan(plan, builder.built, candidate, ordered, sourceLen);
    return Ok(Some(plan));
  }

  /** The loop over the sorted extents and the trailing gap. */
  method PlanOrdered(builder: PlanBuilder, ordered: seq<ExtentRun>, candidate: Candidate, sourceLen: U64)
    returns (r: Result<(), PlanError>)
    requires Scanned(ordered, 0, 0, candidate, sourceLen) && builder.built == []
    requires builder.Reached([], 0, sourceLen) && builder.maxSegments > 0
    modifies builder
    ensures r.Ok? ==>
      && builder.Reached(ordered, candidate.size, sourceLen) && |builder.built| <= builder.maxSegments
      && Plannable(candidate, sourceLen) && (forall e :: e in ordered <==> e in candidate.extents)
    ensures r.Err? ==>
      match r.error
      case SegmentLimitExceeded =>
        builder.maxSegments <= 2 * |ordered| && NeedsMore(candidate, sourceLen, builder.maxSegments)
      case UnavailableContent(reason) =>
        builder.policy == CompleteOnly && reason != SparseZero && Unavailable(candidate, reason)
      case InvalidPlanLimits => false
      case _ => !Plannable(candidate, sourceLen)
  {
    hide Plannable, Scanned, PlanBuilder.Reached, NeedsMore, SegmentCount, Unavailable;
    var cursor: nat := 0;
    assert ordered[..0] == [];
    for i := 0 to |ordered|
      invariant builder.Reached(ordered[..i], cursor, sourceLen) && Scanned(ordered, i, cursor, candidate, sourceLen)
      invariant |builder.built| <= 2 * i && |builder.built| <= builder.maxSegments
    {
      var extent := ordered[i];
      ScanNext(ordered, i, cursor, candidate, sourceLen);
      if extent.logical < cursor {
        return Err(OverlappingExtents(cursor, extent.logical));
      }
      var pushed := PlanExtent(builder, extent, cursor, sourceLen, ordered[..i]);
      assert ordered[..i + 1] == ordered[..i] + [extent];
      if pushed.Err? {
        if pushed.error == SegmentLimitExceeded {
          LimitReal(ordered, i, cursor, candidate, sourceLen, builder.maxSegments);
        } else if pushed.error.UnavailableContent? {
          RefusalReal(ordered, i, cursor, candidate, sourceLen, pushed.error.reason);
        }
        return Err(pushed.error);
      }
      cursor := extent.logical + extent.len;
    }
    assert ordered[..|ordered|] == ordered;
    EndScan(ordered, cursor, candidate, sourceLen);
    r := PushLastGap(builder, ordered, cursor, candidate, sourceLen);
  }

  /** Nothing covers the bytes after the last extent. */
  method PushLastGap(builder: PlanBuilder, ghost ordered: seq<ExtentRun>, cursor: nat, candidate: Candidate,
                     sourceLen: U64)
    returns (r: Result<(), PlanError>)
    requires Scanned(ordered, |ordered|, cursor, candidate, sourceLen) && cursor <= candidate.size
    requires builder.Reached(ordered, cursor, sourceLen) && |builder.built| <= builder.maxSegments
    modifies builder
    ensures r.Ok? ==>
      builder.Reached(ordered, candidate.size, sourceLen) && |builder.built| <= builder.maxSegments
    ensures r.Err? ==>
      match r.error
      case SegmentLimitExceeded =>
        builder.maxSegments <= old(|builder.built|) && NeedsMore(candidate, sourceLen, builder.maxSegments)
      case UnavailableContent(reason) =>
        builder.policy == CompleteOnly && reason != SparseZero && Unavailable(candidate, reason)
      case _ => false
  {
    hide Scanned, PlanBuilder.Reached, NeedsMore, SegmentCount, Unavailable;
    if cursor < candidate.size {
      r := PushGap(builder, cursor, candidate.size, sourceLen, ordered);
      LastGapRefused(ordered, cursor, candidate, sourceLen);
      if r == Err(SegmentLimitExceeded) {
        LastGapReal(ordered, cursor, candidate, sourceLen, builder.maxSegments);
      }
    } else {
      r := Ok(());
    }
  }

  /** Some byte of the file stands for a zero of this kind. */
  ghost predicate Unavailable(candidate: Candidate, reason: ZeroReason) {
    exists b: nat :: b < candidate.size && SaysZero(candidate.extents, b, reason)
  }

  ghost predicate SaysZero(extents: seq<ExtentRun>, b: nat, reason: ZeroReason) {
    || (exists e :: e in extents && e.Covers(b) && ExtentMeaning(e, b) == Zero(reason))
    || (reason == MissingExtent && forall e :: e in extents ==> !e.Covers(b))
  }

  lemma RefusalReal(ordered: seq<ExtentRun>, i: nat, cursor: nat, candidate: Candidate, sourceLen: nat,
                    reason: ZeroReason)
    requires i < |ordered| && Scanned(ordered, i, cursor, candidate, sourceLen) && cursor <= ordered[i].logical
    requires ZeroNext(ordered[i], cursor, reason)
    ensures Unavailable(candidate, reason)
  {
    var next := ordered[i];
    assert next in ordered && FitsLogically(next, candidate.size);
    if ExtentMeaning(next, next.logical) == Zero(reason) {
      assert next.Covers(next.logical) && SaysZero(candidate.extents, next.logical, reason);
    } else {
      GapUncovered(ordered, i, cursor, candidate, sourceLen);
      assert SaysZero(candidate.extents, cursor, reason);
    }
  }

  /** The sorted extents from `i` on start after the cursor, and those before end at it. */
  lemma GapUncovered(ordered: seq<ExtentRun>, i: nat, cursor: nat, candidate: Candidate, sourceLen: nat)
    requires i <= |ordered| && Scanned(ordered, i, cursor, candidate, sourceLen)
    requires i < |ordered| ==> cursor < ordered[i].logical
    ensures forall e :: e in candidate.extents ==> !e.Covers(cursor)
  {
    var key := (e: ExtentRun) => e.logical;
    forall e | e in candidate.extents
      ensures !e.Covers(cursor)
    {
      var j :| 0 <= j < |ordered| && ordered[j] == e;
      if j < i {
        assert e == ordered[..i][j];
        assert j < i - 1 ==> e.End() <= ordered[..i][i - 1].logical;
      } else {
        assert key(ordered[i]) <= key(ordered[j]);
      }
    }
  }

  lemma LastGapRefused(ordered: seq<ExtentRun>, cursor: nat, candidate: Candidate, sourceLen: nat)
    requires Scanned(ordered, |ordered|, cursor, candidate, sourceLen) && cursor < candidate.size
    ensures Unavailable(candidate, MissingExtent)
  {
    GapUncovered(ordered, |ordered|, cursor, candidate, sourceLen);
    assert SaysZero(candidate.extents, cursor, MissingExtent);
  }

  /**
   * `ordered` is the candidate's extents by start; the first `i` of them fit and lie end to end or with gaps up to
   * `cursor`.
   */
  ghost predicate Scanned(ordered: seq<ExtentRun>, i: nat, cursor: nat, candidate: Candidate, sourceLen: nat)
    requires i <= |ordered|
  {
    && multiset(ordered) == multiset(candidate.extents) && (forall e :: e in ordered <==> e in candidate.extents)
    && SortedBy((e: ExtentRun) => e.logical, ordered)
    && (forall e :: e in ordered ==> FitsLogically(e, candidate.size))
    && Ordered(ordered[..i]) && (forall e :: e in ordered[..i] ==> FitsPhysically(e, sourceLen))
    && (if i == 0 then cursor == 0 else cursor == ordered[i - 1].End())
  }

  lemma StartScan(policy: Policy, candidate: Candidate, ordered: seq<ExtentRun>, sourceLen: nat)
    requires multiset(ordered) == multiset(candidate.extents) && (forall e :: e in ordered <==> e in candidate.extents)
    requires SortedBy((e: ExtentRun) => e.logical, ordered)
    requires forall e :: e in candidate.extents ==> FitsLogically(e, candidate.size)
    ensures |ordered| == |candidate.extents| && Scanned(ordered, 0, 0, candidate, sourceLen)
    ensures Segments([]) == [] && ordered[..0] == []
    ensures Tiles([], 0) && Progress([], false, policy, [], 0, sourceLen)
  {
    assert |multiset(ordered)| == |multiset(candidate.extents)|;
  }

  lemma NoCuts()
    ensures CutExactly([], [], 0)
  {
  }

  lemma ScanNext(ordered: seq<ExtentRun>, i: nat, cursor: nat, candidate: Candidate, sourceLen: nat)
    requires i < |ordered| && Scanned(ordered, i, cursor, candidate, sourceLen)
    ensures ordered[i].len > 0
    ensures ordered[i].logical < cursor || !FitsPhysically(ordered[i], sourceLen) ==> !Plannable(candidate, sourceLen)
    ensures ordered[i].logical >= cursor && FitsPhysically(ordered[i], sourceLen) ==>
      Scanned(ordered, i + 1, ordered[i].End(), candidate, sourceLen)
  {
    var next := ordered[i];
    assert next in ordered && next in candidate.extents;
    assert ordered[..i + 1] == ordered[..i] + [next];
    if i > 0 {
      assert SortedBy((e: ExtentRun) => e.logical, ordered);
      assert ((e: ExtentRun) => e.logical)(ordered[i - 1]) <= ((e: ExtentRun) => e.logical)(next);
    }
    if next.logical < cursor {
      OverlapNotDisjoint(candidate.extents, ordered, i - 1, i);
    } else {
      assert forall j :: 0 <= j < i ==> ordered[..i][j].End() <= cursor;
    }
  }

  lemma EndScan(ordered: seq<ExtentRun>, cursor: nat, candidate: Candidate, sourceLen: nat)
    requires Scanned(ordered, |ordered|, cursor, candidate, sourceLen)
    ensures cursor <= candidate.size && Plannable(candidate, sourceLen)
    ensures forall e :: e in ordered <==> e in candidate.extents
  {
    assert ordered[..|ordered|] == ordered;
    if ordered != [] {
      assert ordered[|ordered| - 1] in ordered;
    }
    OrderedDisjoint(candidate.extents, ordered);
  }

  lemma FinishPlan(plan: ContentPlan, built: seq<BuiltSegment>, candidate: Candidate, ordered: seq<ExtentRun>,
                   sourceLen: nat)
    requires plan.candidateId == candidate.id && plan.logicalSize == candidate.size
    requires Progress(plan.segments, plan.requiresBestEffort, plan.policy, ordered, candidate.size, sourceLen)
    requires plan.segments == Segments(built) && CutExactly(built, ordered, candidate.size)
    requires Plannable(candidate, sourceLen)
    requires forall e :: e in ordered <==> e in candidate.extents
    ensures PlanOf(plan, candidate, sourceLen)
  {
    FinishCuts(built, candidate, ordered);
    hide CutExactly, CutWhereNeeded;
    forall b | 0 <= b < candidate.size
      ensures Explained(plan.segments, candidate.extents, b)
    {
      assert Explained(plan.segments, ordered, b);
    }
  }
}
