/** Streaming a content plan to a writer in bounded chunks (crates/restore/src/stream.rs). */
module Streaming {
  import opened Common
  import opened Sorting
  import opened Intervals
  import opened Candidates
  import opened Sources
  import opened Plan
  import opened ZeroRanges

  const MAX_STREAM_BUFFER_BYTES: nat := 1024 * 1024

  datatype StreamError =
    | InvalidScratchLength
    | TooManySegments
    | InvalidPlanSegment(index: nat)
    | InvalidPlanCoverage(index: nat)
    | SegmentOutOfBounds(index: nat)
    | PhysicalOutOfBounds(index: nat)
    | UnavailableSegment(index: nat)
    | InvalidPlanBestEffortFlag
    | InvalidReadOutcome
    | ReadFailure(logical: nat, length: nat)
    | ZeroFillRangeLimit
    | Cancelled(bytesWritten: nat)
    | WriteZero(bytesWritten: nat)
    | OverReported(bytesWritten: nat)
    | WriteFailed(bytesWritten: nat)
    | HashMismatch

  /** Errors raised while bytes are in flight name the exact number committed so far. */
  predicate ReportsCommitted(error: StreamError, committed: nat) {
    match error
    case Cancelled(n) => n == committed
    case WriteZero(n) => n == committed
    case OverReported(n) => n == committed
    case WriteFailed(n) => n == committed
    case _ => true
  }

  // ---------- Bad ranges, merged in the storage they arrived in ----------

  lemma ReportedSnoc(ranges: seq<BadRange>, next: BadRange)
    ensures forall x: int :: Reported(ranges + [next], x) <==> Reported(ranges, x) || next.Covers(x)
  {
  }

  ghost predicate ByOffset(ranges: seq<BadRange>) {
    forall j, k :: 0 <= j < k < |ranges| ==> ranges[j].offset <= ranges[k].offset
  }

  function SortByOffset(ranges: seq<BadRange>): (sorted: seq<BadRange>)
    ensures ByOffset(sorted) && forall r :: r in sorted <==> r in ranges
  {
    var key := (r: BadRange) => r.offset;
    var sorted := SortBy(key, ranges);
    assert forall j, k :: 0 <= j < k < |sorted| ==> key(sorted[j]) <= key(sorted[k]);
    sorted
  }

  /** The ranges merged from the first `index` reported ones. */
  ghost predicate MergedUpTo(merged: seq<Range>, sorted: seq<BadRange>, index: nat)
    requires index <= |sorted|
  {
    && Normal(merged)
    && (forall x: int :: In(merged, x) <==> Reported(sorted[..index], x))
    && (merged != [] ==> index > 0 && merged[|merged| - 1].start <= sorted[index - 1].offset)
  }

  lemma MergeStep(merged: seq<Range>, sorted: seq<BadRange>, index: nat)
    requires ByOffset(sorted) && index < |sorted| && sorted[index].len > 0
    requires MergedUpTo(merged, sorted, index)
    ensures MergedUpTo(MergeOne(merged, Range(sorted[index].offset, sorted[index].offset + sorted[index].len)), sorted,
                       index + 1)
  {
    hide Normal, MergeOne, In, Reported;
    var next := sorted[index];
    assert sorted[..index + 1] == sorted[..index] + [next];
    ReportedSnoc(sorted[..index], next);
    MergeOneKeeps(merged, Range(next.offset, next.offset + next.len));
  }

  lemma NothingMerged(sorted: seq<BadRange>)
    ensures MergedUpTo([], sorted, 0)
  {
  }

  /** One slot of the shared storage. */
  datatype Pair = Pair(first: nat, second: nat)

  /** The pairs in `slots` change meaning as the loop passes: offset and length before it, start and end after. */
  method MergeInPlace(slots: array<Pair>, sorted: seq<BadRange>) returns (mergedLen: nat, ghost merged: seq<Range>)
    requires ByOffset(sorted) && (forall k :: 0 <= k < |sorted| ==> sorted[k].len > 0)
    requires slots.Length == |sorted| && forall k :: 0 <= k < |sorted| ==>
      slots[k] == Pair(sorted[k].offset, sorted[k].len)
    modifies slots
    ensures mergedLen == |merged| <= slots.Length
    ensures forall k :: 0 <= k < mergedLen ==> slots[k] == Pair(merged[k].start, merged[k].end)
    ensures MergedUpTo(merged, sorted, |sorted|)
  {
    hide MergedUpTo, MergeOne, ByOffset;
    mergedLen := 0;
    merged := [];
    NothingMerged(sorted);
    for index := 0 to slots.Length
      invariant mergedLen == |merged| <= index
      invariant forall k :: 0 <= k < mergedLen ==> slots[k] == Pair(merged[k].start, merged[k].end)
      invariant forall k :: index <= k < |sorted| ==> slots[k] == Pair(sorted[k].offset, sorted[k].len)
      invariant MergedUpTo(merged, sorted, index)
    {
      MergeStep(merged, sorted, index);
      ghost var next := Range(sorted[index].offset, sorted[index].offset + sorted[index].len);
      mergedLen := MergeSlot(slots, mergedLen, index, merged, next);
      merged := MergeOne(merged, next);
    }
  }

  /** One turn: read the offset and length at `index`, then write a start and end at or before it. */
  method MergeSlot(slots: array<Pair>, mergedLen: nat, index: nat, ghost merged: seq<Range>, ghost next: Range)
    returns (newLen: nat)
    requires mergedLen == |merged| <= index < slots.Length
    requires forall k :: 0 <= k < mergedLen ==> slots[k] == Pair(merged[k].start, merged[k].end)
    requires next.start <= next.end && slots[index] == Pair(next.start, next.end - next.start)
    modifies slots
    ensures newLen == |MergeOne(merged, next)| <= index + 1
    ensures forall k :: 0 <= k < newLen ==>
      slots[k] == Pair(MergeOne(merged, next)[k].start, MergeOne(merged, next)[k].end)
    ensures forall k :: index < k < slots.Length ==> slots[k] == old(slots[k])
  {
    var start, end := slots[index].first, slots[index].first + slots[index].second;
    if mergedLen > 0 && start <= slots[mergedLen - 1].second {
      slots[mergedLen - 1] := Pair(slots[mergedLen - 1].first, Max(slots[mergedLen - 1].second, end));
      newLen := mergedLen;
    } else {
      slots[mergedLen] := Pair(start, end);
      newLen := mergedLen + 1;
    }
  }

  method NormalizeBadRanges(requestedLen: nat, outcome: ReadOutcome) returns (r: Result<seq<Range>, StreamError>)
    requires requestedLen < U64_LIMIT
    ensures r.Ok? <==> WellReported(requestedLen, outcome)
    ensures r.Err? ==> r.error == InvalidReadOutcome
    ensures r.Ok? ==> Normal(r.value) && Within(r.value, requestedLen)
    ensures r.Ok? ==> forall x: int :: In(r.value, x) <==> Reported(outcome.badRanges, x)
  {
    var bad := outcome.badRanges;
    if |bad| > requestedLen {
      return Err(InvalidReadOutcome);
    }
    for k := 0 to |bad|
      invariant forall j :: 0 <= j < k ==> bad[j].len > 0 && bad[j].offset + bad[j].len <= requestedLen
    {
      if bad[k].offset + bad[k].len >= U64_LIMIT || bad[k].len == 0 || bad[k].offset + bad[k].len > requestedLen {
        assert bad[k] in bad;
        return Err(InvalidReadOutcome);
      }
    }
    assert WellReported(requestedLen, outcome) <==>
      outcome.bytesValid == requestedLen - Count((i: nat) => Reported(bad, i), requestedLen);
    r := MergeReported(requestedLen, bad, outcome.bytesValid);
  }

  /** Sorting, merging and the final count of valid bytes, once every range is known to lie in the request. */
  method MergeReported(requestedLen: nat, bad: seq<BadRange>, bytesValid: nat)
    returns (r: Result<seq<Range>, StreamError>)
    requires forall b :: b in bad ==> b.len > 0 && b.offset + b.len <= requestedLen
    ensures r.Ok? <==> bytesValid == requestedLen - Count((i: nat) => Reported(bad, i), requestedLen)
    ensures r.Err? ==> r.error == InvalidReadOutcome
    ensures r.Ok? ==> Normal(r.value) && Within(r.value, requestedLen)
    ensures r.Ok? ==> forall x: int :: In(r.value, x) <==> Reported(bad, x)
  {
    var sorted := SortByOffset(bad);
    hide ByOffset, MergedUpTo, SortByOffset;
    assert forall k :: 0 <= k < |sorted| ==> sorted[k] in sorted;
    var slots := new Pair[|sorted|](k requires 0 <= k < |sorted| => Pair(sorted[k].offset, sorted[k].len));
    ghost var merged;
    var mergedLen;
    mergedLen, merged := MergeInPlace(slots, sorted);
    var ranges :=
      seq(mergedLen,
          k requires 0 <= k < mergedLen <= slots.Length reads slots => Range(slots[k].first, slots[k].second));
    assert ranges == merged;
    MergedBound(merged, sorted, bad, requestedLen);
    if bytesValid != requestedLen - Total(ranges) {
      return Err(InvalidReadOutcome);
    }
    return Ok(ranges);
  }

  /** What the merged ranges say about the report: same positions, inside the request, and their exact number. */
  lemma MergedBound(merged: seq<Range>, sorted: seq<BadRange>, bad: seq<BadRange>, n: nat)
    requires MergedUpTo(merged, sorted, |sorted|) && (forall r :: r in sorted <==> r in bad)
    requires forall r :: r in bad ==> r.offset + r.len <= n
    ensures Normal(merged) && Within(merged, n) && (forall x: int :: In(merged, x) <==> Reported(bad, x))
    ensures Total(merged) == Count((i: nat) => Reported(bad, i), n)
  {
    assert sorted[..|sorted|] == sorted;
    forall x: int
      ensures In(merged, x) <==> Reported(bad, x)
    {
      assert Reported(sorted, x) <==> Reported(bad, x);
    }
    forall r | r in merged
      ensures r.end <= n
    {
      assert r.Contains(r.end - 1);
      assert In(merged, r.end - 1);
    }
    TotalIsCount(merged, (i: nat) => Reported(bad, i), n);
  }

  // ---------- What a completed stream must contain ----------

  function ContentByte(meaning: Meaning, source: Source): Byte {
    match meaning
    case Physical(p) => if p >= 0 then source.ByteAt(p) else 0
    case Zero(_) => 0
  }

  /** Why a byte was zero-filled, if it was. A planned read of an unreadable position is a read failure. */
  function ZeroReasonOf(meaning: Meaning, source: Source): Option<ZeroReason> {
    match meaning
    case Physical(p) => if p >= 0 && source.Readable(p) then None else Some(PreviouslyReadFailed)
    case Zero(reason) => Some(reason)
  }

  ghost function Content(segments: seq<Segment>, source: Source, size: nat): (s: seq<Byte>)
    ensures |s| == size
  {
    seq<Byte>(size, b requires 0 <= b < size => ContentByte(PlanMeaning(segments, b), source))
  }

  /** The zero ranges say exactly what happened to each byte below `frontier`. */
  ghost predicate ZerosUpTo(zeros: seq<ZeroRange>, segments: seq<Segment>, source: Source, frontier: nat) {
    && Maximal(zeros)
    && (zeros != [] ==> zeros[|zeros| - 1].End() <= frontier)
    && (forall b: int, reason :: ZeroAt(zeros, b, reason) <==>
         0 <= b < frontier && ZeroReasonOf(PlanMeaning(segments, b), source) == Some(reason))
  }

  ghost predicate NonSparse(zeros: seq<ZeroRange>) {
    exists z :: z in zeros && z.reason != SparseZero
  }

  /** A byte inside segment `k` of a tiling means what that segment says. */
  lemma {:induction false} SegmentDecides(segments: seq<Segment>, end: int, k: nat, b: int)
    requires Tiles(segments, end) && k < |segments| && segments[k].logical <= b < segments[k].End()
    ensures PlanMeaning(segments, b) == SegmentMeaning(segments[k], b)
    ensures segments[k].End() <= end
    decreases |segments|
  {
    var rest, last := segments[..|segments| - 1], segments[|segments| - 1];
    TilesStart(segments, end);
    if k < |rest| {
      assert rest[k] in rest;
      TilesStart(rest, last.logical);
      SegmentDecides(rest, last.logical, k, b);
    }
  }

  lemma {:induction false} TilesStep(segments: seq<Segment>, end: int, k: nat)
    requires Tiles(segments, end) && k < |segments|
    ensures segments[k].len > 0 && 0 <= segments[k].logical && segments[k].End() <= end
    ensures k == 0 ==> segments[k].logical == 0
    ensures k + 1 < |segments| ==> segments[k + 1].logical == segments[k].End()
    ensures k + 1 == |segments| ==> segments[k].End() == end
    decreases |segments|
  {
    TilesStart(segments, end);
    var rest := segments[..|segments| - 1];
    assert segments[k] in segments;
    if k < |rest| {
      TilesStep(rest, segments[|rest|].logical, k);
    } else if k == 0 {
      assert rest == [];
    }
  }

  // ---------- Preflight ----------

  predicate PlanRejected(error: StreamError) {
    match error
    case InvalidScratchLength | TooManySegments | InvalidPlanSegment(_) | InvalidPlanCoverage(_) | SegmentOutOfBounds(_)
       | PhysicalOutOfBounds(_) | UnavailableSegment(_) | InvalidPlanBestEffortFlag => true
    case _ => false
  }

  ghost predicate StreamReady(plan: ContentPlan, sourceLen: nat, scratchLen: nat) {
    && 0 < scratchLen <= MAX_STREAM_BUFFER_BYTES && |plan.segments| <= MAX_CONTENT_PLAN_SEGMENTS
    && Tiles(plan.segments, plan.logicalSize) && ReadsWithin(plan.segments, sourceLen)
    && (plan.requiresBestEffort <==> NeedsBestEffort(plan.segments))
    && (plan.policy == CompleteOnly ==> !NeedsBestEffort(plan.segments))
  }

  lemma TilesSnoc(segments: seq<Segment>, next: Segment)
    requires Tiles(segments, next.logical) && next.len > 0
    ensures Tiles(segments + [next], next.End())
  {
    assert (segments + [next])[..|segments|] == segments;
  }

  lemma {:induction false} TilesOneEnd(segments: seq<Segment>, end: int, other: int)
    requires Tiles(segments, end) && Tiles(segments, other)
    ensures end == other
  {
  }

  /** What the loop knows after `index` segments. */
  ghost predicate Checked(plan: ContentPlan, index: nat, offset: nat, bestEffort: bool, sourceLen: nat)
    requires index <= |plan.segments|
  {
    var done := plan.segments[..index];
    && Tiles(done, offset) && ReadsWithin(done, sourceLen)
    && (bestEffort <==> NeedsBestEffort(done)) && (plan.policy == CompleteOnly ==> !bestEffort)
  }

  /** The tests one segment must pass. */
  predicate SegmentPasses(plan: ContentPlan, segment: Segment, offset: nat, sourceLen: nat) {
    && segment.len > 0 && segment.logical == offset && segment.End() <= plan.logicalSize
    && (segment.Read? ==> segment.physical + segment.len <= sourceLen)
    && (segment.ZeroFill? && segment.reason != SparseZero ==> plan.policy != CompleteOnly)
  }

  lemma CheckStep(plan: ContentPlan, index: nat, offset: nat, bestEffort: bool, sourceLen: nat, scratchLen: nat)
    requires index < |plan.segments| && Checked(plan, index, offset, bestEffort, sourceLen)
    ensures var next := plan.segments[index];
      if SegmentPasses(plan, next, offset, sourceLen)
      then Checked(plan, index + 1, next.End(), bestEffort || (next.ZeroFill? && next.reason != SparseZero), sourceLen)
      else !StreamReady(plan, sourceLen, scratchLen)
  {
    var segments, next := plan.segments, plan.segments[index];
    assert next in segments && segments[..index + 1] == segments[..index] + [next];
    if SegmentPasses(plan, next, offset, sourceLen) {
      TilesSnoc(segments[..index], next);
    } else if Tiles(segments, plan.logicalSize) {
      TilesStep(segments, plan.logicalSize, index);
      TilesPrefix(segments, plan.logicalSize, index);
      TilesOneEnd(segments[..index], offset, next.logical);
    }
  }

  lemma WholeFlag(plan: ContentPlan, offset: nat, bestEffort: bool, sourceLen: nat)
    requires Checked(plan, |plan.segments|, offset, bestEffort, sourceLen)
    ensures bestEffort <==> NeedsBestEffort(plan.segments)
  {
    assert plan.segments[..|plan.segments|] == plan.segments;
  }

  lemma CheckEnd(plan: ContentPlan, offset: nat, bestEffort: bool, sourceLen: nat, scratchLen: nat)
    requires Checked(plan, |plan.segments|, offset, bestEffort, sourceLen)
    requires 0 < scratchLen <= MAX_STREAM_BUFFER_BYTES && |plan.segments| <= MAX_CONTENT_PLAN_SEGMENTS
    ensures offset == plan.logicalSize && bestEffort == plan.requiresBestEffort <==>
      StreamReady(plan, sourceLen, scratchLen)
  {
    assert plan.segments[..|plan.segments|] == plan.segments;
    if Tiles(plan.segments, plan.logicalSize) {
      TilesOneEnd(plan.segments, offset, plan.logicalSize);
    }
  }

  function EndBefore(segments: seq<Segment>, k: nat): int
    requires k <= |segments|
  {
    if k == 0 then 0 else segments[k - 1].End()
  }

  /** What each refusal says of the plan. */
  ghost predicate Refused(plan: ContentPlan, sourceLen: nat, scratchLen: nat, error: StreamError) {
    var segments, n := plan.segments, |plan.segments|;
    match error
    case InvalidScratchLength => scratchLen == 0 || scratchLen > MAX_STREAM_BUFFER_BYTES
    case TooManySegments => n > MAX_CONTENT_PLAN_SEGMENTS
    case InvalidPlanSegment(i) => i < n && segments[i].len == 0
    case InvalidPlanCoverage(i) =>
      i <= n && EndBefore(segments, i) != if i < n then segments[i].logical else plan.logicalSize
    case SegmentOutOfBounds(i) => i < n && segments[i].End() > plan.logicalSize
    case PhysicalOutOfBounds(i) => i < n && segments[i].Read? && segments[i].physical + segments[i].len > sourceLen
    case UnavailableSegment(i) =>
      i < n && segments[i].ZeroFill? && segments[i].reason != SparseZero && plan.policy == CompleteOnly
    case InvalidPlanBestEffortFlag => plan.requiresBestEffort != NeedsBestEffort(segments)
    case _ => false
  }

  method Preflight(sourceLen: U64, plan: ContentPlan, scratchLen: nat) returns (r: Result<(), StreamError>)
    requires plan.logicalSize < U64_LIMIT
    ensures r.Err? ==> Refused(plan, sourceLen, scratchLen, r.error)
    ensures r.Ok? <==> StreamReady(plan, sourceLen, scratchLen)
    ensures r.Err? ==> PlanRejected(r.error)
  {
    if scratchLen == 0 || scratchLen > MAX_STREAM_BUFFER_BYTES {
      return Err(InvalidScratchLength);
    }
    if |plan.segments| > MAX_CONTENT_PLAN_SEGMENTS {
      return Err(TooManySegments);
    }
    var expectedOffset := 0;
    var expectedBestEffort := false;
    assert Checked(plan, 0, 0, false, sourceLen);
    hide Checked, StreamReady;
    for index := 0 to |plan.segments|
      invariant expectedOffset >= 0 && Checked(plan, index, expectedOffset, expectedBestEffort, sourceLen)
      invariant expectedOffset == EndBefore(plan.segments, index)
    {
      var segment := plan.segments[index];
      CheckStep(plan, index, expectedOffset, expectedBestEffort, sourceLen, scratchLen);
      if segment.len == 0 {
        return Err(InvalidPlanSegment(index));
      }
      if segment.logical != expectedOffset {
        return Err(InvalidPlanCoverage(index));
      }
      if segment.logical + segment.len > plan.logicalSize {
        return Err(SegmentOutOfBounds(index));
      }
      match segment {
        case Read(_, physical, len) =>
          if physical + len > sourceLen {
            return Err(PhysicalOutOfBounds(index));
          }
        case ZeroFill(_, _, reason) =>
          if reason != SparseZero {
            if plan.policy == CompleteOnly {
              return Err(UnavailableSegment(index));
            }
            expectedBestEffort := true;
          }
      }
      expectedOffset := segment.logical + segment.len;
    }
    CheckEnd(plan, expectedOffset, expectedBestEffort, sourceLen, scratchLen);
    if expectedOffset != plan.logicalSize {
      return Err(InvalidPlanCoverage(|plan.segments|));
    }
    WholeFlag(plan, expectedOffset, expectedBestEffort, sourceLen);
    if expectedBestEffort != plan.requiresBestEffort {
      return Err(InvalidPlanBestEffortFlag);
    }
    return Ok(());
  }

  lemma {:induction false} TilesPrefix(segments: seq<Segment>, end: int, k: nat)
    requires Tiles(segments, end) && k < |segments|
    ensures Tiles(segments[..k], segments[k].logical)
    decreases |segments|
  {
    var rest, last := segments[..|segments| - 1], segments[|segments| - 1];
    if k < |rest| {
      TilesPrefix(rest, last.logical, k);
      assert rest[..k] == segments[..k];
    }
  }
}
