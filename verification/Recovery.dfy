/** The recovery pipeline end to end: runlist bytes to extents to content plan, with one meaning per file byte. */
module Recovery {
  import opened Common
  import opened Arithmetic
  import opened Allocation
  import opened Candidates
  import opened Runlist
  import opened Segmenting
  import Extents
  import Plan

  datatype RecoveryError = MalformedRunlist(cause: RunError) | Unplannable(reason: Plan.PlanError)

  lemma {:induction false} TilesOrdered(extents: seq<ExtentRun>, start: int, end: int)
    requires Extents.Tiles(extents, start, end)
    ensures Plan.Ordered(extents)
    decreases |extents|
  {
    if extents != [] {
      var rest, last := extents[..|extents| - 1], extents[|extents| - 1];
      TilesOrdered(rest, start, last.logical);
      Extents.TilesBounds(rest, start, last.logical);
      assert extents == rest + [last];
      assert forall j :: 0 <= j < |rest| ==> rest[j] in rest;
    }
  }

  /** Extents built from a stream always satisfy the planner. */
  lemma DescribedIsPlannable(id: nat, extents: seq<ExtentRun>, stream: Extents.Stream,
                             allocation: Option<AllocationMap>, limit: nat, sourceLen: nat)
    requires stream.clusterSize > 0 && Extents.Describes(extents, stream, allocation, limit) && limit <= sourceLen
    ensures Plan.Plannable(Candidate(id, File, stream.dataSize, extents), sourceLen)
  {
    var end := Min(stream.dataSize, Extents.RunBytes(stream.runs, stream.clusterSize));
    TilesOrdered(extents, 0, end);
    Extents.TilesBounds(extents, 0, end);
    Plan.OrderedDisjoint(extents, extents);
  }

  /** Every byte of the tiled prefix lies in some extent. */
  lemma {:induction false} TilesCover(extents: seq<ExtentRun>, start: int, end: int, b: int)
    requires Extents.Tiles(extents, start, end) && start <= b < end
    ensures exists e :: e in extents && e.Covers(b)
    decreases |extents|
  {
    var rest, last := extents[..|extents| - 1], extents[|extents| - 1];
    assert last in extents;
    if b < last.logical {
      TilesCover(rest, start, last.logical, b);
      var e :| e in rest && e.Covers(b);
      assert e in extents;
    } else {
      assert last.Covers(b);
    }
  }

  /** A plan of a stream's extents means, at every byte, what NTFS says of that byte. */
  lemma PlanMeansStream(plan: Plan.ContentPlan, candidate: Candidate, stream: Extents.Stream,
                        allocation: Option<AllocationMap>, limit: nat, sourceLen: nat, b: nat)
    requires stream.clusterSize > 0 && Extents.Describes(candidate.extents, stream, allocation, limit)
    requires candidate.size == stream.dataSize && Plan.PlanOf(plan, candidate, sourceLen) && b < stream.dataSize
    ensures Plan.PlanMeaning(plan.segments, b) == Extents.StreamMeaning(stream, allocation, b)
  {
    var extents, mapped := candidate.extents, Extents.RunBytes(stream.runs, stream.clusterSize);
    assert Plan.Explained(plan.segments, extents, b);
    if b < mapped {
      TilesCover(extents, 0, Min(stream.dataSize, mapped), b);
    } else {
      Extents.TilesBounds(extents, 0, Min(stream.dataSize, mapped));
      Extents.Unmapped(stream.runs, stream.clusterSize, allocation, b);
    }
  }

  /** Below the initialized size, a byte of run `i` is that run's byte; past it, a mapped byte is a sparse zero. */
  lemma ByteOfRun(stream: Extents.Stream, allocation: Option<AllocationMap>, i: nat, b: nat)
    requires stream.clusterSize > 0 && i < |stream.runs|
    requires Extents.RunBytes(stream.runs[..i], stream.clusterSize) <= b
    requires b < Extents.RunBytes(stream.runs[..i + 1], stream.clusterSize)
    ensures Extents.StreamMeaning(stream, allocation, b) ==
      if b >= stream.initializedSize then Zero(SparseZero)
      else Extents.RunMeaning(stream.runs[i], stream.clusterSize, allocation,
                              b - Extents.RunBytes(stream.runs[..i], stream.clusterSize))
  {
    Extents.RunBytesPrefix(stream.runs, stream.clusterSize, i + 1);
    Extents.MappedInRun(stream.runs, stream.clusterSize, allocation, i, b);
  }

  /**
   * Past the initialized size a byte is a sparse zero exactly when some run maps it; an unmapped one is a missing
   * extent.
   */
  lemma PastInitialized(stream: Extents.Stream, allocation: Option<AllocationMap>, b: nat)
    requires stream.clusterSize > 0 && b >= stream.initializedSize
    ensures var mapped := b < Extents.RunBytes(stream.runs, stream.clusterSize);
      && (Extents.StreamMeaning(stream, allocation, b) == Zero(SparseZero) <==> mapped)
      && (Extents.StreamMeaning(stream, allocation, b) == Zero(MissingExtent) <==> !mapped)
  {
    if b >= Extents.RunBytes(stream.runs, stream.clusterSize) {
      Extents.Unmapped(stream.runs, stream.clusterSize, allocation, b);
    }
  }

  /**
   * A concrete stream: one mapped cluster, two clusters of data, none of it initialized. Its second cluster is
   * missing, not sparse.
   */
  lemma UnmappedTailIsMissing()
    ensures var stream := Extents.Stream([RunElement(1, Some(10))], 4096, 8192, 0);
      && Extents.StreamMeaning(stream, None, 0) == Zero(SparseZero)
      && Extents.StreamMeaning(stream, None, 4096) == Zero(MissingExtent)
  {
    var stream := Extents.Stream([RunElement(1, Some(10))], 4096, 8192, 0);
    assert Extents.RunBytes([], 4096) == 0;
    assert Extents.RunBytes(stream.runs, 4096) == 4096;
    PastInitialized(stream, None, 0);
    PastInitialized(stream, None, 4096);
  }

  lemma DivAdd(lcn: nat, cs: nat, within: nat)
    requires cs > 0
    ensures (lcn * cs + within) / cs == lcn + within / cs
  {
    assert within == (within / cs) * cs + within % cs;
    assert lcn * cs + within == (lcn + within / cs) * cs + within % cs;
    BlockOf(lcn * cs + within, cs, lcn + within / cs, 1);
  }

  /** Content is only ever read from clusters the bitmap proves free. */
  lemma {:induction false} ReadsOnlyFreeClusters(runs: seq<RunElement>, cs: nat, allocation: Option<AllocationMap>,
                                                 b: nat, p: int)
    requires cs > 0 && Extents.MappedMeaning(runs, cs, allocation, b) == Physical(p)
    ensures p >= 0 && allocation.Some? && allocation.value.IsAllocated(p / cs) == Some(false)
    decreases |runs|
  {
    var start, last := Extents.RunBytes(runs[..|runs| - 1], cs), runs[|runs| - 1];
    if b < start {
      ReadsOnlyFreeClusters(runs[..|runs| - 1], cs, allocation, b, p);
    } else {
      DivAdd(last.lcn.value, cs, b - start);
    }
  }

  // ---------- How many segments a stream needs ----------

  /** Byte `x` does not carry on where the byte before it left off. */
  ghost predicate MeaningBreaks(stream: Extents.Stream, allocation: Option<AllocationMap>, x: nat)
    requires stream.clusterSize > 0
  {
    x == 0
    || !Follows(Extents.StreamMeaning(stream, allocation, x - 1), Extents.StreamMeaning(stream, allocation, x))
  }

  ghost function NeededSegments(stream: Extents.Stream, allocation: Option<AllocationMap>, n: nat): nat
    requires stream.clusterSize > 0
  {
    if n == 0 then 0
    else NeededSegments(stream, allocation, n - 1) + if MeaningBreaks(stream, allocation, n - 1) then 1 else 0
  }

  /** The extents of a stream say of each byte what NTFS says, and readable ones are all of one availability. */
  lemma DescribedByte(extents: seq<ExtentRun>, stream: Extents.Stream, allocation: Option<AllocationMap>, limit: nat,
                      b: nat)
    requires stream.clusterSize > 0 && Extents.Describes(extents, stream, allocation, limit) && b < stream.dataSize
    ensures ByteMeaning(extents, b) == Extents.StreamMeaning(stream, allocation, b)
    ensures ByteMeaning(extents, b).Physical? ==> AvailabilityOf(extents, b) == Some(FreeInSnapshot)
  {
    var mapped := Extents.RunBytes(stream.runs, stream.clusterSize);
    if b < mapped {
      TilesCover(extents, 0, Extents.MappedSize(stream), b);
    } else {
      Extents.TilesBounds(extents, 0, Extents.MappedSize(stream));
      Extents.Unmapped(stream.runs, stream.clusterSize, allocation, b);
    }
    hide Extents.Tiles, Extents.StreamMeaning, CoverOf;
  }

  lemma {:induction false} SameNeeds(extents: seq<ExtentRun>, stream: Extents.Stream, allocation: Option<AllocationMap>,
                                     limit: nat, n: nat)
    requires stream.clusterSize > 0 && Extents.Describes(extents, stream, allocation, limit) && n <= stream.dataSize
    ensures SegmentCount(extents, n) == NeededSegments(stream, allocation, n)
  {
    hide Extents.Describes, Extents.StreamMeaning, ByteMeaning, AvailabilityOf;
    if n > 0 {
      SameNeeds(extents, stream, allocation, limit, n - 1);
      DescribedByte(extents, stream, allocation, limit, n - 1);
      if n > 1 {
        DescribedByte(extents, stream, allocation, limit, n - 2);
      }
    }
  }

  /** The stream a decodable runlist stands for. */
  function StreamOf(runlist: seq<Byte>, totalClusters: nat, clusterSize: nat, dataSize: nat,
                    initializedSize: nat): Extents.Stream
    requires Decoded(runlist, totalClusters).Ok?
  {
    Extents.Stream(Decoded(runlist, totalClusters).value, clusterSize, dataSize, initializedSize)
  }

  /** The stream fits the planner's bounds: not too many extents, and not more segments than allowed. */
  ghost predicate FitsLimits(stream: Extents.Stream, allocation: Option<AllocationMap>, maxSegments: nat)
    requires stream.clusterSize > 0
  {
    && Extents.CutCount(stream, allocation, Extents.MappedSize(stream)) <= Plan.MAX_CONTENT_PLAN_SEGMENTS
    && NeededSegments(stream, allocation, stream.dataSize) <= maxSegments
  }

  /** The plan tiles the stream's data, reads inside the source, means what NTFS says, and has no segment too many. */
  ghost predicate PlansStream(plan: Plan.ContentPlan, stream: Extents.Stream, allocation: Option<AllocationMap>,
                              sourceLen: nat)
    requires stream.clusterSize > 0
  {
    && Plan.Tiles(plan.segments, stream.dataSize)
    && Plan.ReadsWithin(plan.segments, sourceLen)
    && |plan.segments| == NeededSegments(stream, allocation, stream.dataSize)
    && forall b: nat :: b < stream.dataSize ==>
         Plan.PlanMeaning(plan.segments, b) == Extents.StreamMeaning(stream, allocation, b)
  }

  /**
   * Any runlist, any bitmap: under the zero-filling policy a decodable stream plans if and only if its cuts and the
   * places where its meaning breaks are within the limits, and the plan has exactly NTFS's meaning of each byte.
   */
  method PlanStream(runlist: seq<Byte>, totalClusters: U64, clusterSize: nat, dataSize: U64, initializedSize: U64,
                    allocation: Option<AllocationMap>, sourceLen: U64, id: nat, maxSegments: nat)
    returns (r: Result<Plan.ContentPlan, RecoveryError>)
    requires clusterSize > 0 && totalClusters * clusterSize <= sourceLen
    requires 0 < maxSegments <= Plan.MAX_CONTENT_PLAN_SEGMENTS
    ensures Decoded(runlist, totalClusters).Err? ==>
      r == Err(MalformedRunlist(Decoded(runlist, totalClusters).error))
    ensures Decoded(runlist, totalClusters).Ok? ==>
      var stream := StreamOf(runlist, totalClusters, clusterSize, dataSize, initializedSize);
      && (r.Ok? <==> FitsLimits(stream, allocation, maxSegments))
      && (r.Ok? ==> PlansStream(r.value, stream, allocation, sourceLen))
      && (r.Err? ==> r.error == Unplannable(Plan.SegmentLimitExceeded))
  {
    var decoded := DecodeRunlist(runlist, totalClusters);
    if decoded.Err? {
      return Err(MalformedRunlist(decoded.error));
    }
    AcceptedRunsInVolume(runlist, totalClusters);
    var stream := Extents.Stream(decoded.value, clusterSize, dataSize, initializedSize);
    var streams := [Extents.DataStream(false, false, Extents.NonResident(stream))];
    var size, extents := Extents.BuildExtents(streams, 0, allocation, totalClusters);
    ghost var limit := totalClusters * clusterSize;
    hide Extents.Describes, Extents.CutCount, Extents.MappedSize, SegmentCount, NeededSegments, Plan.Plannable,
         Plan.PlanOf, PlansStream;
    var candidate := Candidate(id, File, size, extents);
    DescribedIsPlannable(id, extents, stream, allocation, limit, sourceLen);
    SameNeeds(extents, stream, allocation, limit, dataSize);
    var planned := Plan.PlanCandidate(candidate, sourceLen, None, Plan.ZeroFillAndMap, maxSegments);
    if planned.Err? {
      return Err(Unplannable(planned.error));
    }
    PlanOfStream(planned.value.value, candidate, stream, allocation, limit, sourceLen);
    return Ok(planned.value.value);
  }

  lemma PlanOfStream(plan: Plan.ContentPlan, candidate: Candidate, stream: Extents.Stream,
                     allocation: Option<AllocationMap>, limit: nat, sourceLen: nat)
    requires stream.clusterSize > 0 && Extents.Describes(candidate.extents, stream, allocation, limit)
    requires candidate.size == stream.dataSize && Plan.PlanOf(plan, candidate, sourceLen)
    ensures PlansStream(plan, stream, allocation, sourceLen)
  {
    SameNeeds(candidate.extents, stream, allocation, limit, stream.dataSize);
    forall b: nat | b < stream.dataSize
      ensures Plan.PlanMeaning(plan.segments, b) == Extents.StreamMeaning(stream, allocation, b)
    {
      PlanMeansStream(plan, candidate, stream, allocation, limit, sourceLen, b);
    }
    hide Extents.Describes, Extents.StreamMeaning, NeededSegments, SegmentCount, Plan.Explained, Plan.Tiles;
  }
}
