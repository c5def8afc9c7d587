/** The deep scan end to end: bitmap, admission, carving, merge (crates/cli/src/deep.rs:30-124). */
module DeepScan {
  import opened Common
  import opened Arithmetic
  import opened Intervals
  import opened Sources
  import opened Candidates
  import opened Allocation
  import opened Jpeg
  import opened CarveSpec
  import opened Carving
  import opened CarveScan
  import opened CarveRequest
  import opened Admission
  import opened EvidenceMerge

  datatype Outcome = Outcome(
    candidates: seq<Discovered>, evidence: seq<Evidence>, isComplete: bool, regionLimitReached: bool,
    carvingReasons: seq<PartialReason>)

  function AsDiscovered(c: Candidate): Discovered {
    Discovered(c, Carving, c.id)
  }

  function AllDiscovered(candidates: seq<Candidate>): (s: seq<Discovered>)
    ensures |s| == |candidates|
    ensures forall k :: 0 <= k < |s| ==> s[k] == AsDiscovered(candidates[k])
  {
    seq(|candidates|, k requires 0 <= k < |candidates| => AsDiscovered(candidates[k]))
  }

  /** A carved candidate matches its own evidence. */
  lemma FoundMatches(data: seq<Byte>, digest: seq<Byte> -> seq<Byte>, region: CarveRegion, c: Candidate, item: Evidence)
    requires FoundIn(data, digest, region, c, item) && |data| < U64_LIMIT
    ensures Matches(AsDiscovered(c), item)
  {
    assert LogicalStart(c.extents, 1) == LogicalStart(c.extents, 0) + c.extents[0].len;
    assert Continues(c, 0);
    assert Contiguous(c);
  }

  /** What the carver reports is never malformed input for the merge. */
  lemma ReportIsWellFormed(findings: Findings, data: seq<Byte>, digest: seq<Byte> -> seq<Byte>,
                           regions: seq<CarveRegion>, inputs: seq<Discovered>)
    requires Honest(findings, data, digest, regions) && |data| < U64_LIMIT && EvidenceMerge.DistinctIds(inputs)
    ensures !Malformed(inputs, AllDiscovered(findings.candidates), findings.evidence)
  {
    hide FoundIn, Matches, RangeOf, CarvedAll;
    var items := findings.evidence;
    forall k | 0 <= k < |items|
      ensures Matches(AsDiscovered(findings.candidates[k]), items[k])
      ensures items[k].physicalOffset == findings.candidates[k].id
    {
      assert FoundSomewhere(data, digest, regions, findings.candidates[k], items[k]);
      var region :| region in regions && FoundIn(data, digest, region, findings.candidates[k], items[k]);
      FoundMatches(data, digest, region, findings.candidates[k], items[k]);
      MatchedOffset(findings.candidates[k], items[k]);
    }
    OffsetsDecide(findings.candidates, items);
  }

  lemma MatchedOffset(c: Candidate, item: Evidence)
    requires Matches(AsDiscovered(c), item)
    ensures item.physicalOffset == c.id
  {
  }

  lemma OffsetsDecide(candidates: seq<Candidate>, items: seq<Evidence>)
    requires |candidates| == |items| && CarveRequest.DistinctIds(candidates)
    requires forall k :: 0 <= k < |items| ==> items[k].physicalOffset == candidates[k].id
    ensures !Conflict(items)
  {
  }

  /** Bytes that the bitmap proves free. */
  ghost predicate FreeBytes(bitmap: AllocationMap, clusterSize: nat, lo: nat, hi: nat)
    requires clusterSize > 0
  {
    forall x: nat :: lo <= x < hi ==> bitmap.IsFree(x / clusterSize)
  }

  /** Every request of the scan stays on free clusters. */
  ghost predicate OnlyFreeRead(log: seq<Range>, bitmap: AllocationMap, clusterSize: nat)
    requires clusterSize > 0
  {
    forall k :: 0 <= k < |log| ==> FreeBytes(bitmap, clusterSize, log[k].start, log[k].end)
  }

  /** The admitted regions come from the free runs of the bitmap. */
  ghost predicate FromBitmap(regions: seq<CarveRegion>, bitmap: AllocationMap, clusterSize: nat)
    requires clusterSize > 0
  {
    forall r :: r in regions ==> FreeBytes(bitmap, clusterSize, r.offset, r.End())
  }

  lemma AdmittedAreFree(regions: seq<CarveRegion>, bitmap: AllocationMap, runs: seq<FreeRun>, clusterSize: nat)
    requires clusterSize > 0 && forall run :: run in runs ==> MaximalFree(bitmap, run)
    requires forall x: int :: Admitted(regions, x) ==> InSome(FreeRegions(runs, clusterSize), x)
    ensures FromBitmap(regions, bitmap, clusterSize)
  {
    hide MaximalFree, AllocationMap.IsFree, FreeRegions, InSome;
    forall r, x: nat | r in regions && r.offset <= x < r.End()
      ensures bitmap.IsFree(x / clusterSize)
    {
      assert Admitted(regions, x);
      FreeByte(bitmap, runs, clusterSize, x);
    }
  }

  lemma ReadsAreFree(log: seq<Range>, regions: seq<CarveRegion>, bitmap: AllocationMap, clusterSize: nat)
    requires clusterSize > 0 && FromBitmap(regions, bitmap, clusterSize) && ReadsInRegions(log, regions)
    ensures OnlyFreeRead(log, bitmap, clusterSize)
  {
    hide AllocationMap.IsFree;
  }

  /** An unbroken stretch of admitted bytes lies in one admitted region. */
  lemma StretchInOne(regions: seq<CarveRegion>, lo: nat, hi: nat) returns (r: CarveRegion)
    requires Spaced(regions) && lo < hi && forall x: int :: lo <= x < hi ==> Admitted(regions, x)
    ensures r in regions && r.offset <= lo && hi <= r.End()
  {
    assert Admitted(regions, lo);
    var i :| 0 <= i < |regions| && regions[i].offset <= lo < regions[i].End();
    r := regions[i];
    GapAfter(regions, i);
  }

  /** The byte after an admitted region is not admitted. */
  lemma GapAfter(regions: seq<CarveRegion>, i: nat)
    requires i < |regions| && Spaced(regions)
    ensures !Admitted(regions, regions[i].End())
  {
  }

  /** The image lies wholly inside one free run of the bitmap, and inside the source. */
  ghost predicate InFreeRun(bitmap: AllocationMap, clusterSize: nat, sourceLen: nat, hit: Hit) {
    exists run ::
      && MaximalFree(bitmap, run) && (run.start + run.count) * clusterSize <= sourceLen
      && run.start * clusterSize <= hit.offset && hit.offset + hit.len <= (run.start + run.count) * clusterSize
  }

  /** Such an image lies in one admitted region, when no admission limit was met. */
  lemma RunIsAdmitted(bitmap: AllocationMap, runs: seq<FreeRun>, clusterSize: nat, sourceLen: nat,
                      regions: seq<CarveRegion>, hit: Hit)
    returns (r: CarveRegion)
    requires clusterSize > 0 && sourceLen < U64_LIMIT && hit.len > 0 && InFreeRun(bitmap, clusterSize, sourceLen, hit)
    requires forall run :: MaximalFree(bitmap, run) ==> run in runs
    requires Spaced(regions) && forall x: int :: Admitted(regions, x) <==> InSome(FreeRegions(runs, clusterSize), x)
    ensures r in regions && r.offset <= hit.offset && hit.offset + hit.len <= r.End()
  {
    hide MaximalFree, Admitted, Spaced, FreeRegions;
    var run :|
      && MaximalFree(bitmap, run) && (run.start + run.count) * clusterSize <= sourceLen
      && run.start * clusterSize <= hit.offset && hit.offset + hit.len <= (run.start + run.count) * clusterSize;
    Distribute(run.start, run.count, clusterSize);
    var region := RegionOf(run, clusterSize);
    assert region in FreeRegions(runs, clusterSize);
    forall x: int | hit.offset <= x < hit.offset + hit.len
      ensures Admitted(regions, x)
    {
      assert region.Has(x);
    }
    r := StretchInOne(regions, hit.offset, hit.offset + hit.len);
  }

  /** A full report holds evidence for every image inside a region. */
  lemma FullReportHas(findings: Findings, data: seq<Byte>, digest: seq<Byte> -> seq<Byte>, regions: seq<CarveRegion>,
                      r: CarveRegion, hit: Hit)
    requires Honest(findings, data, digest, regions) && !findings.isPartial && r in regions
    requires r.offset <= hit.offset && ImageAt(data, hit, r.End())
    ensures exists item :: item in findings.evidence && RangeOfItem(item) == PhysicalRange(hit.offset, hit.len)
  {
    hide ImageAt, CarvedAll;
    var c := CarvedCandidate(hit, r.availability);
    CarvedAllExact(data, regions);
    assert IsCarved(data, r, c);
    assert c in CarvedAll(data, regions);
    var k :| 0 <= k < |findings.candidates| && findings.candidates[k] == c;
    assert FoundSomewhere(data, digest, regions, findings.candidates[k], findings.evidence[k]);
    assert findings.evidence[k] in findings.evidence;
  }

  /** The evidence is for real images on free clusters, with the digest of their bytes. */
  ghost predicate Proven(item: Evidence, data: seq<Byte>, digest: seq<Byte> -> seq<Byte>, bitmap: AllocationMap,
                         clusterSize: nat)
    requires clusterSize > 0
  {
    var range := RangeOfItem(item);
    && range.offset + range.len <= |data| && AcceptedAt(data[range.offset..range.offset + range.len])
    && item.contentSha256 == digest(data[range.offset..range.offset + range.len])
    && FreeBytes(bitmap, clusterSize, range.offset, range.offset + range.len)
  }

  lemma ReportIsProven(findings: Findings, data: seq<Byte>, digest: seq<Byte> -> seq<Byte>, regions: seq<CarveRegion>,
                       bitmap: AllocationMap, clusterSize: nat, item: Evidence)
    requires clusterSize > 0 && FromBitmap(regions, bitmap, clusterSize) && Honest(findings, data, digest, regions)
    requires Backed(findings.evidence, RangeOfItem(item), item.contentSha256)
    ensures Proven(item, data, digest, bitmap, clusterSize)
  {
    hide FoundIn, FromBitmap, Proven, CarvedAll;
    var k :| 0 <= k < |findings.evidence| && RangeOfItem(findings.evidence[k]) == RangeOfItem(item) &&
      findings.evidence[k].contentSha256 == item.contentSha256;
    assert FoundSomewhere(data, digest, regions, findings.candidates[k], findings.evidence[k]);
    var region :| region in regions && FoundIn(data, digest, region, findings.candidates[k], findings.evidence[k]);
    FoundIsProven(data, digest, regions, region, bitmap, clusterSize, findings.candidates[k], findings.evidence[k]);
    SameProof(findings.evidence[k], item, data, digest, bitmap, clusterSize);
  }

  lemma FoundIsProven(data: seq<Byte>, digest: seq<Byte> -> seq<Byte>, regions: seq<CarveRegion>, region: CarveRegion,
                      bitmap: AllocationMap, clusterSize: nat, c: Candidate, item: Evidence)
    requires clusterSize > 0 && FromBitmap(regions, bitmap, clusterSize) && region in regions
    requires FoundIn(data, digest, region, c, item)
    ensures Proven(item, data, digest, bitmap, clusterSize)
  {
    hide AllocationMap.IsFree;
    assert FreeBytes(bitmap, clusterSize, region.offset, region.End());
  }

  lemma SameProof(a: Evidence, b: Evidence, data: seq<Byte>, digest: seq<Byte> -> seq<Byte>, bitmap: AllocationMap,
                  clusterSize: nat)
    requires clusterSize > 0 && Proven(a, data, digest, bitmap, clusterSize)
    requires RangeOfItem(a) == RangeOfItem(b) && a.contentSha256 == b.contentSha256
    ensures Proven(b, data, digest, bitmap, clusterSize)
  {
  }

  /** `scan_ntfs_deep_jpeg`. */
  method ScanDeep(reader: SourceReader, candidates: seq<Discovered>, allocation: Option<AllocationMap>,
                  clusterSize: nat, digest: seq<Byte> -> seq<Byte>)
    returns (r: Option<Outcome>)
    requires clusterSize > 0 && reader.source.Truthful() && |reader.source.data| < U64_LIMIT && reader.log == []
    modifies reader
    ensures allocation.None? ==> r == Some(Outcome(candidates, [], false, false, [])) && reader.log == []
    ensures r.None? && EvidenceMerge.DistinctIds(candidates) ==>
        IdsSpent(candidates, reader.source.data, digest, allocation.value, clusterSize)
    ensures allocation.Some? && !EvidenceMerge.DistinctIds(candidates) ==> r.None?
    ensures allocation.Some? ==> OnlyFreeRead(reader.log, allocation.value, clusterSize)
    ensures allocation.Some? && r.Some? ==>
      Sound(candidates, r.value, reader.source.data, digest, allocation.value, clusterSize)
    ensures allocation.Some? && r.Some? ==>
        (r.value.isComplete <==>
          allocation.value.IsComplete() && !r.value.regionLimitReached && r.value.carvingReasons == [])
    ensures allocation.Some? && r.Some? ==>
        (r.value.regionLimitReached <==> FreeOverLimit(allocation.value, clusterSize, |reader.source.data|))
    ensures allocation.Some? && r.Some? && ReadError in r.value.carvingReasons ==> reader.SawBad()
    ensures r.Some? && r.value.isComplete ==>
        allocation.Some? && Exhausts(r.value, reader.source.data, allocation.value, clusterSize)
  {
    hide MaximalFree, Spaced, Admitted, InSome, Admissible, Honest, AllocationMap.IsFree, Source.Truthful,
         CarveReport.Consistent, OnlyFreeRead, FromBitmap, Sound, Exhausts, Merged, Malformed,
         EvidenceMerge.DistinctIds, IdsSpent, ReadsInRegions, FreeOverLimit, FreeRegions;
    if allocation.None? {
      return Some(Outcome(candidates, [], false, false, []));
    }
    ghost var data := reader.source.data;
    var bitmap := allocation.value;
    ghost var runs;
    var regions, limitReached;
    regions, limitReached, runs := AdmitFreeRegions(bitmap, clusterSize, |reader.source.data|);
    var carved := CarveJpegs(reader, regions, DEEP_LIMITS, digest);
    ReadsAreFree(reader.log, regions, bitmap, clusterSize);
    var report := carved.value;
    var merged := MergeCarvedEvidence(candidates, AllDiscovered(report.candidates), report.evidence);
    if EvidenceMerge.DistinctIds(candidates) {
      ReportIsWellFormed(FindingsOf(report), data, digest, regions, candidates);
    } else {
      DuplicatesMalformed(candidates, AllDiscovered(report.candidates), report.evidence);
    }
    if merged.None? {
      Refused(candidates, AllDiscovered(report.candidates), FindingsOf(report), data, digest, regions, bitmap,
              clusterSize, report);
      return None;
    }
    var partial := !bitmap.IsComplete() || limitReached || report.isPartial;
    ReasonsReal(report, reader);
    var outcome := Outcome(merged.value.0, merged.value.1, !partial, limitReached, report.reasons);
    MergeIsSound(candidates, FindingsOf(report), outcome, data, digest, regions, bitmap, clusterSize);
    if outcome.isComplete {
      MergeExhausts(candidates, FindingsOf(report), outcome, data, digest, regions, bitmap, runs, clusterSize);
    }
    return Some(outcome);
  }

  /** `admit_free_regions`: the free runs of the bitmap, through admission. */
  method AdmitFreeRegions(bitmap: AllocationMap, clusterSize: nat, sourceLen: nat)
    returns (regions: seq<CarveRegion>, limitReached: bool, ghost runs: seq<FreeRun>)
    requires clusterSize > 0 && sourceLen < U64_LIMIT
    ensures limitReached <==> FreeOverLimit(bitmap, clusterSize, sourceLen)
    ensures Admissible(regions, sourceLen, DEEP_LIMITS) && Spaced(regions) && FromBitmap(regions, bitmap, clusterSize)
    ensures forall r :: r in regions ==> r.End() <= sourceLen
    ensures forall run :: MaximalFree(bitmap, run) ==> run in runs
    ensures !limitReached ==> forall x: int :: Admitted(regions, x) <==> InSome(FreeRegions(runs, clusterSize), x)
  {
    hide MaximalFree, Spaced, Admitted, InSome, Admissible, FromBitmap, AdmissionOf, FreeOverLimit, FreeRegions;
    var freeRuns := CollectFreeRuns(bitmap);
    runs := freeRuns;
    FreeRegionsInOrder(freeRuns, clusterSize);
    var free := FreeRegions(freeRuns, clusterSize);
    regions, limitReached := AdmitRegions(free, sourceLen);
    LimitIsReal(bitmap, freeRuns, clusterSize, sourceLen, regions, limitReached);
    AdmissionFacts(regions, limitReached, free, sourceLen);
    AdmittedAreFree(regions, bitmap, freeRuns, clusterSize);
  }

  /** The bitmap's own free space is over a limit: past the source's end, in too many runs, or of too many bytes. */
  ghost predicate FreeOverLimit(bitmap: AllocationMap, clusterSize: nat, sourceLen: nat) {
    exists runs :: FreeRunsOf(bitmap, runs) && OverLimit(FreeRegions(runs, clusterSize), sourceLen)
  }

  lemma LimitIsReal(bitmap: AllocationMap, runs: seq<FreeRun>, clusterSize: nat, sourceLen: nat,
                    regions: seq<CarveRegion>, limitReached: bool)
    requires clusterSize > 0 && FreeRunsOf(bitmap, runs)
    requires AdmissionOf(regions, limitReached, FreeRegions(runs, clusterSize), sourceLen)
    ensures limitReached <==> FreeOverLimit(bitmap, clusterSize, sourceLen)
  {
    FreeRegionsParted(runs, clusterSize);
    hide OverLimit, Parted, FreeRegions, Admissible, FreeRunsOf;
    if FreeOverLimit(bitmap, clusterSize, sourceLen) {
      var other :| FreeRunsOf(bitmap, other) && OverLimit(FreeRegions(other, clusterSize), sourceLen);
      FreeRunsUnique(bitmap, runs, other);
    }
  }

  lemma DuplicatesMalformed(inputs: seq<Discovered>, carved: seq<Discovered>, items: seq<Evidence>)
    requires !EvidenceMerge.DistinctIds(inputs)
    ensures Malformed(inputs, carved, items)
  {
    hide EvidenceMerge.DistinctIds;
  }

  lemma AdmissionFacts(regions: seq<CarveRegion>, limitReached: bool, free: seq<Region>, sourceLen: nat)
    requires AdmissionOf(regions, limitReached, free, sourceLen)
    ensures Admissible(regions, sourceLen, DEEP_LIMITS) && Spaced(regions)
    ensures forall r :: r in regions ==> r.End() <= sourceLen
    ensures forall x: int :: Admitted(regions, x) ==> InSome(free, x)
    ensures !limitReached ==> forall x: int :: Admitted(regions, x) <==> InSome(free, x)
  {
    hide Spaced, Admitted, InSome, OverLimit, Parted, AllApart, TotalLen;
  }

  lemma ReasonsReal(report: CarveReport, reader: SourceReader)
    requires report.Consistent(DEEP_LIMITS) && report.reader == reader
    ensures report.isPartial <==> report.reasons != []
    ensures ReadError in report.reasons ==> reader.SawBad()
  {
  }

  lemma Refused(candidates: seq<Discovered>, carved: seq<Discovered>, findings: Findings, data: seq<Byte>,
                digest: seq<Byte> -> seq<Byte>, regions: seq<CarveRegion>, bitmap: AllocationMap, clusterSize: nat,
                report: CarveReport)
    requires clusterSize > 0 && FromBitmap(regions, bitmap, clusterSize) && Honest(findings, data, digest, regions)
    requires EvidenceMerge.DistinctIds(candidates) ==> !Malformed(candidates, carved, findings.evidence)
    requires Malformed(candidates, carved, findings.evidence) || IdsExhausted(candidates, findings.evidence)
    requires report.evidence == findings.evidence && report.Consistent(DEEP_LIMITS)
    ensures !EvidenceMerge.DistinctIds(candidates) || IdsSpent(candidates, data, digest, bitmap, clusterSize)
  {
    hide Malformed, EvidenceMerge.DistinctIds, IdsExhausted, FromBitmap, Honest, Proven;
    forall item | item in findings.evidence
      ensures Proven(item, data, digest, bitmap, clusterSize)
    {
      assert Backed(findings.evidence, RangeOfItem(item), item.contentSha256);
      ReportIsProven(findings, data, digest, regions, bitmap, clusterSize, item);
    }
    assert IdsExhausted(candidates, findings.evidence) ==>
        Spends(candidates, findings.evidence, data, digest, bitmap, clusterSize);
  }

  /**
   * Metadata first and unchanged, distinct ids, one proven item of evidence per range, each with the right candidate.
   */
  ghost predicate Sound(candidates: seq<Discovered>, outcome: Outcome, data: seq<Byte>, digest: seq<Byte> -> seq<Byte>,
                        bitmap: AllocationMap, clusterSize: nat)
    requires clusterSize > 0
  {
    && candidates <= outcome.candidates && EvidenceMerge.DistinctIds(outcome.candidates)
    && OnePerRange(outcome.evidence)
    && forall e :: e in outcome.evidence ==>
        Proven(e, data, digest, bitmap, clusterSize) &&
          AssignedRight(candidates, outcome.candidates, RangeOfItem(e), e.candidateId)
  }

  /** Every image inside a free run is in the evidence. */
  ghost predicate Exhausts(outcome: Outcome, data: seq<Byte>, bitmap: AllocationMap, clusterSize: nat) {
    forall hit: Hit :: ImageAt(data, hit, |data|) && InFreeRun(bitmap, clusterSize, |data|, hit) ==>
      Listed(outcome.evidence, hit)
  }

  lemma MergeIsSound(candidates: seq<Discovered>, findings: Findings, outcome: Outcome, data: seq<Byte>,
                     digest: seq<Byte> -> seq<Byte>, regions: seq<CarveRegion>, bitmap: AllocationMap,
                     clusterSize: nat)
    requires clusterSize > 0 && FromBitmap(regions, bitmap, clusterSize) && Honest(findings, data, digest, regions)
    requires Merged(candidates, findings.evidence, outcome.candidates, outcome.evidence)
    ensures Sound(candidates, outcome, data, digest, bitmap, clusterSize)
  {
    hide FromBitmap, Honest, Proven, AssignedRight, EvidenceMerge.DistinctIds, Backed;
    forall e | e in outcome.evidence
      ensures Proven(e, data, digest, bitmap, clusterSize)
    {
      ReportIsProven(findings, data, digest, regions, bitmap, clusterSize, e);
    }
  }

  lemma MergeExhausts(candidates: seq<Discovered>, findings: Findings, outcome: Outcome, data: seq<Byte>,
                      digest: seq<Byte> -> seq<Byte>, regions: seq<CarveRegion>, bitmap: AllocationMap,
                      runs: seq<FreeRun>, clusterSize: nat)
    requires clusterSize > 0 && |data| < U64_LIMIT && Honest(findings, data, digest, regions) && !findings.isPartial
    requires forall r :: r in regions ==> r.End() <= |data|
    requires Merged(candidates, findings.evidence, outcome.candidates, outcome.evidence)
    requires forall run :: MaximalFree(bitmap, run) ==> run in runs
    requires Spaced(regions) && forall x: int :: Admitted(regions, x) <==> InSome(FreeRegions(runs, clusterSize), x)
    ensures Exhausts(outcome, data, bitmap, clusterSize)
  {
    hide Honest, MaximalFree, Spaced, Admitted, InSome, FreeRegions, InFreeRun, Backed;
    forall hit: Hit | ImageAt(data, hit, |data|) && InFreeRun(bitmap, clusterSize, |data|, hit)
      ensures Listed(outcome.evidence, hit)
    {
      StartsWithSoi(data[hit.offset..hit.offset + hit.len]);
      var r := RunIsAdmitted(bitmap, runs, clusterSize, |data|, regions, hit);
      FullReportHas(findings, data, digest, regions, r, hit);
      var item :| item in findings.evidence && RangeOfItem(item) == PhysicalRange(hit.offset, hit.len);
      BackedIsListed(outcome.evidence, item, hit);
    }
  }

  lemma BackedIsListed(evidence: seq<Evidence>, item: Evidence, hit: Hit)
    requires Backed(evidence, RangeOfItem(item), item.contentSha256)
    requires RangeOfItem(item) == PhysicalRange(hit.offset, hit.len)
    ensures Listed(evidence, hit)
  {
  }

  ghost predicate Listed(evidence: seq<Evidence>, hit: Hit) {
    exists e :: e in evidence && RangeOfItem(e) == PhysicalRange(hit.offset, hit.len)
  }

  /** The images found need more new ids than 64 bits have left above the largest candidate id. */
  ghost predicate IdsSpent(candidates: seq<Discovered>, data: seq<Byte>, digest: seq<Byte> -> seq<Byte>,
                           bitmap: AllocationMap, clusterSize: nat)
    requires clusterSize > 0
  {
    exists items :: Spends(candidates, items, data, digest, bitmap, clusterSize)
  }

  ghost predicate Spends(candidates: seq<Discovered>, items: seq<Evidence>, data: seq<Byte>,
                         digest: seq<Byte> -> seq<Byte>, bitmap: AllocationMap, clusterSize: nat)
    requires clusterSize > 0
  {
    && IdsExhausted(candidates, items) && |items| <= DEEP_LIMITS.maxCandidates
    && forall item :: item in items ==> Proven(item, data, digest, bitmap, clusterSize)
  }
}
