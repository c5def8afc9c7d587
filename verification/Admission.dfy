/** From the bitmap to the regions the deep scan may read (crates/cli/src/deep.rs:140-220). */
module Admission {
  import opened Common
  import opened Arithmetic
  import opened Allocation
  import opened Candidates
  import opened Carving
  import opened CarveRequest

  const DEEP_MAX_REGIONS: nat := 65_536
  const DEEP_MAX_SCAN_BYTES: nat := 16 * 1024 * 1024 * 1024 * 1024

  /** The deep scan's fixed limits. */
  const DEEP_LIMITS := Limits(
    1024 * 1024, 128 * 1024 * 1024, 10_000, DEEP_MAX_REGIONS, DEEP_MAX_SCAN_BYTES, 10_000_000, 8 * 1024 * 1024 * 1024)

  datatype Region = Region(offset: nat, len: nat) {
    function End(): nat {
      offset + len
    }

    predicate Has(x: int) {
      offset <= x < offset + len
    }
  }

  ghost predicate InSome(regions: seq<Region>, x: int) {
    exists r :: r in regions && r.Has(x)
  }

  ghost predicate Admitted(regions: seq<CarveRegion>, x: int) {
    exists r :: r in regions && r.offset <= x < r.End()
  }

  ghost predicate InOrder(regions: seq<Region>) {
    forall i, j :: 0 <= i < j < |regions| ==> regions[i].End() <= regions[j].offset
  }

  // ---------- Bytes of free clusters ----------

  function RegionOf(run: FreeRun, clusterSize: nat): Region {
    Region(run.start * clusterSize, run.count * clusterSize)
  }

  predicate Representable(r: Region) {
    r.offset < U64_LIMIT && r.len < U64_LIMIT && r.End() < U64_LIMIT
  }

  /** `free_regions`: the free runs in bytes, without those that 64-bit arithmetic cannot express. */
  function FreeRegions(runs: seq<FreeRun>, clusterSize: nat): (regions: seq<Region>)
    ensures forall r :: r in regions <==> Representable(r) && exists u :: u in runs && r == RegionOf(u, clusterSize)
  {
    if runs == [] then []
    else
      var rest, last := FreeRegions(runs[..|runs| - 1], clusterSize), runs[|runs| - 1];
      assert runs == runs[..|runs| - 1] + [last];
      if Representable(RegionOf(last, clusterSize)) then rest + [RegionOf(last, clusterSize)] else rest
  }

  lemma {:induction false} FreeRegionsInOrder(runs: seq<FreeRun>, clusterSize: nat)
    requires clusterSize > 0 && SeparatedRuns(runs)
    ensures InOrder(FreeRegions(runs, clusterSize))
  {
    FreeRegionsEnd(runs, clusterSize);
    hide RegionOf, Representable, FreeRegions;
    if runs != [] {
      var rest, last := runs[..|runs| - 1], runs[|runs| - 1];
      FreeRegionsInOrder(rest, clusterSize);
      var before := FreeRegions(rest, clusterSize);
      forall i | 0 <= i < |before|
        ensures before[i].End() <= RegionOf(last, clusterSize).offset
      {
        assert before[i] in before;
        var run :| run in rest && before[i] == RegionOf(run, clusterSize);
        RegionsApart(run, last, clusterSize);
      }
    }
  }

  /** Runs with a cluster between them give nonempty regions with room between them. */
  lemma {:induction false} FreeRegionsParted(runs: seq<FreeRun>, clusterSize: nat)
    requires clusterSize > 0 && SeparatedRuns(runs) && forall run :: run in runs ==> run.count > 0
    ensures Parted(FreeRegions(runs, clusterSize))
  {
    FreeRegionsEnd(runs, clusterSize);
    hide RegionOf, Representable, Parted, FreeRegions;
    if runs != [] {
      var rest, last := runs[..|runs| - 1], runs[|runs| - 1];
      assert runs == rest + [last] && last in runs;
      FreeRegionsParted(rest, clusterSize);
      var before := FreeRegions(rest, clusterSize);
      NonEmptyRegion(last, clusterSize);
      forall i | 0 <= i < |before|
        ensures before[i].End() < RegionOf(last, clusterSize).offset
      {
        assert before[i] in before;
        var run :| run in rest && before[i] == RegionOf(run, clusterSize);
        RegionsApart(run, last, clusterSize);
      }
      PartedSnoc(before, RegionOf(last, clusterSize));
    }
  }

  lemma FreeRegionsEnd(runs: seq<FreeRun>, clusterSize: nat)
    ensures runs == [] ==> FreeRegions(runs, clusterSize) == [] && Parted(FreeRegions(runs, clusterSize))
    ensures runs != [] ==>
      var before, last := FreeRegions(runs[..|runs| - 1], clusterSize), RegionOf(runs[|runs| - 1], clusterSize);
      FreeRegions(runs, clusterSize) == if Representable(last) then before + [last] else before
  {
    hide RegionOf, Representable;
  }

  lemma PartedSnoc(free: seq<Region>, last: Region)
    requires Parted(free) && last.len > 0 && forall i :: 0 <= i < |free| ==> free[i].End() < last.offset
    ensures Parted(free + [last])
  {
  }

  lemma NonEmptyRegion(run: FreeRun, clusterSize: nat)
    requires clusterSize > 0 && run.count > 0
    ensures RegionOf(run, clusterSize).len > 0
  {
    ProductOrder(1, run.count, clusterSize);
  }

  lemma RegionsApart(a: FreeRun, b: FreeRun, clusterSize: nat)
    requires clusterSize > 0 && a.start + a.count < b.start
    ensures RegionOf(a, clusterSize).End() < RegionOf(b, clusterSize).offset
  {
    Distribute(a.start, a.count, clusterSize);
    ProductOrder(a.start + a.count, b.start, clusterSize);
  }

  /** A byte of a free region belongs to a cluster the bitmap proves free. */
  lemma FreeByte(bitmap: AllocationMap, runs: seq<FreeRun>, clusterSize: nat, x: nat)
    requires clusterSize > 0 && forall run :: run in runs ==> MaximalFree(bitmap, run)
    requires InSome(FreeRegions(runs, clusterSize), x)
    ensures bitmap.IsFree(x / clusterSize)
  {
    hide AllocationMap.IsFree, MaximalFree;
    var r :| r in FreeRegions(runs, clusterSize) && r.Has(x);
    var run :| run in runs && r == RegionOf(run, clusterSize);
    Distribute(run.start, run.count, clusterSize);
    BlockOf(x, clusterSize, run.start, run.count);
    RunIsFree(bitmap, run, x / clusterSize);
  }

  lemma RunIsFree(bitmap: AllocationMap, run: FreeRun, c: nat)
    requires MaximalFree(bitmap, run) && run.start <= c < run.start + run.count
    ensures bitmap.IsFree(c)
  {
  }

  // ---------- Admission ----------

  /** Admitted regions are nonempty, in order and apart. */
  ghost predicate Spaced(regions: seq<CarveRegion>) {
    && (forall k :: 0 <= k < |regions| ==> regions[k].len > 0 && regions[k].availability == FreeInSnapshot)
    && (forall j, k :: 0 <= j < k < |regions| ==> regions[j].End() < regions[k].offset)
  }

  /** One turn of the admission loop: grow the last region or add one. */
  function Admit(regions: seq<CarveRegion>, next: Region): seq<CarveRegion> {
    if regions != [] && regions[|regions| - 1].End() == next.offset then
      var last := regions[|regions| - 1];
      regions[..|regions| - 1] + [last.(len := last.len + next.len)]
    else regions + [CarveRegion(next.offset, next.len, FreeInSnapshot)]
  }

  lemma AdmitKeeps(regions: seq<CarveRegion>, next: Region)
    requires Spaced(regions) && next.len > 0
    requires regions != [] ==> regions[|regions| - 1].End() <= next.offset
    ensures var after := Admit(regions, next);
      && Spaced(after) && after != [] && after[|after| - 1].End() == next.End()
      && TotalLen(after) == TotalLen(regions) + next.len
      && |regions| <= |after| <= |regions| + 1
  {
    if regions != [] && regions[|regions| - 1].End() == next.offset {
      GrowKeeps(regions, next);
    } else {
      AddKeeps(regions, next);
    }
  }

  lemma GrowKeeps(regions: seq<CarveRegion>, next: Region)
    requires Spaced(regions) && regions != [] && regions[|regions| - 1].End() == next.offset
    ensures var after := Admit(regions, next);
      && Spaced(after) && |after| == |regions| && after[|after| - 1].End() == next.End()
      && TotalLen(after) == TotalLen(regions) + next.len
  {
    var rest, last := regions[..|regions| - 1], regions[|regions| - 1];
    var after := rest + [last.(len := last.len + next.len)];
    LastLen(regions);
    LastLen(after);
    hide TotalLen;
    assert after[..|rest|] == rest;
  }

  lemma AddKeeps(regions: seq<CarveRegion>, next: Region)
    requires Spaced(regions) && next.len > 0 && (regions != [] ==> regions[|regions| - 1].End() < next.offset)
    ensures var after := regions + [CarveRegion(next.offset, next.len, FreeInSnapshot)];
      Spaced(after) && TotalLen(after) == TotalLen(regions) + next.len
  {
    hide TotalLen, Spaced;
    var last := CarveRegion(next.offset, next.len, FreeInSnapshot);
    LastLen(regions + [last]);
    assert (regions + [last])[..|regions + [last]| - 1] == regions;
    EndsBefore(regions, next.offset);
    SpacedSnoc(regions, last);
  }

  lemma EndsBefore(regions: seq<CarveRegion>, x: int)
    requires Spaced(regions) && (regions != [] ==> regions[|regions| - 1].End() < x)
    ensures forall j :: 0 <= j < |regions| ==> regions[j].End() < x
  {
  }

  lemma SpacedSnoc(regions: seq<CarveRegion>, last: CarveRegion)
    requires Spaced(regions) && last.len > 0 && last.availability == FreeInSnapshot
    requires forall j :: 0 <= j < |regions| ==> regions[j].End() < last.offset
    ensures Spaced(regions + [last])
  {
  }

  lemma LastLen(regions: seq<CarveRegion>)
    requires regions != []
    ensures TotalLen(regions) == TotalLen(regions[..|regions| - 1]) + regions[|regions| - 1].len
  {
  }

  lemma AdmitAddsBytes(regions: seq<CarveRegion>, next: Region)
    ensures forall x: int :: Admitted(Admit(regions, next), x) <==> Admitted(regions, x) || next.Has(x)
  {
    if regions != [] && regions[|regions| - 1].End() == next.offset {
      var rest, last := regions[..|regions| - 1], regions[|regions| - 1];
      assert regions == rest + [last];
      AdmittedSnoc(rest, last);
      AdmittedSnoc(rest, last.(len := last.len + next.len));
      hide Admitted;
    } else {
      AdmittedSnoc(regions, CarveRegion(next.offset, next.len, FreeInSnapshot));
      hide Admitted;
    }
  }

  lemma AdmittedSnoc(regions: seq<CarveRegion>, last: CarveRegion)
    ensures forall x: int :: Admitted(regions + [last], x) <==> Admitted(regions, x) || last.offset <= x < last.End()
  {
  }

  lemma SpacedApart(regions: seq<CarveRegion>)
    requires Spaced(regions)
    ensures AllApart(regions)
  {
  }

  lemma {:induction false} SpacedTotal(regions: seq<CarveRegion>, limit: nat)
    requires Spaced(regions) && (regions != [] ==> regions[|regions| - 1].End() <= limit)
    ensures TotalLen(regions) <= limit
    ensures forall r :: r in regions ==> r.End() <= limit
  {
    if regions != [] {
      var rest, last := regions[..|regions| - 1], regions[|regions| - 1];
      assert regions == rest + [last];
      SpacedTotal(rest, last.offset);
    }
  }

  function TotalFree(free: seq<Region>): nat {
    if free == [] then 0 else TotalFree(free[..|free| - 1]) + free[|free| - 1].len
  }

  /** The free space is more than a deep scan takes, or some of it lies past the end of the source. */
  ghost predicate OverLimit(free: seq<Region>, sourceLen: nat) {
    || (exists r :: r in free && r.len > 0 && r.End() > sourceLen)
    || |free| > DEEP_MAX_REGIONS
    || TotalFree(free) > DEEP_MAX_SCAN_BYTES
  }

  /** Nonempty regions with room between them. */
  ghost predicate Parted(free: seq<Region>) {
    && (forall i :: 0 <= i < |free| ==> free[i].len > 0)
    && (forall i, j :: 0 <= i < j < |free| ==> free[i].End() < free[j].offset)
  }

  lemma InSomeSnoc(regions: seq<Region>, last: Region)
    ensures forall x: int :: InSome(regions + [last], x) <==> InSome(regions, x) || last.Has(x)
  {
  }

  lemma {:induction false} TotalFreePrefix(free: seq<Region>, i: nat)
    requires i < |free|
    ensures TotalFree(free[..i + 1]) == TotalFree(free[..i]) + free[i].len
    ensures TotalFree(free[..i + 1]) <= TotalFree(free)
    decreases |free|
  {
    assert free[..i + 1][..i] == free[..i];
    if i + 1 < |free| {
      var rest := free[..|free| - 1];
      TotalFreePrefix(rest, i);
      assert rest[..i + 1] == free[..i + 1] && rest[..i] == free[..i];
    } else {
      assert free[..i + 1] == free;
    }
  }

  /** The first `i` regions are admitted in full. */
  ghost predicate AdmittedUpTo(regions: seq<CarveRegion>, free: seq<Region>, i: nat, sourceLen: nat)
    requires i <= |free|
  {
    && Spaced(regions) && |regions| <= DEEP_MAX_REGIONS && |regions| <= i
    && TotalLen(regions) == TotalFree(free[..i]) <= DEEP_MAX_SCAN_BYTES
    && (regions != [] ==> regions[|regions| - 1].End() <= sourceLen)
    && (forall k :: i <= k < |free| && regions != [] ==> regions[|regions| - 1].End() <= free[k].offset)
    && (forall x: int :: Admitted(regions, x) <==> InSome(free[..i], x))
    && (forall r :: r in free[..i] && r.len > 0 ==> r.End() <= sourceLen)
    && (Parted(free) ==> |regions| == i && (i > 0 ==> regions[i - 1].End() == free[i - 1].End()))
  }

  lemma NothingAdmitted(free: seq<Region>, sourceLen: nat)
    ensures AdmittedUpTo([], free, 0, sourceLen)
  {
  }

  /** One more region that fits in full. */
  lemma AdmitOne(regions: seq<CarveRegion>, free: seq<Region>, i: nat, sourceLen: nat)
    requires InOrder(free) && i < |free| && AdmittedUpTo(regions, free, i, sourceLen)
    requires free[i].len > 0 && free[i].End() <= sourceLen && TotalLen(regions) + free[i].len <= DEEP_MAX_SCAN_BYTES
    requires |regions| < DEEP_MAX_REGIONS || regions[|regions| - 1].End() == free[i].offset
    ensures AdmittedUpTo(Admit(regions, free[i]), free, i + 1, sourceLen)
  {
    hide Spaced, Admitted, InSome, TotalLen, TotalFree;
    AdmitKeeps(regions, free[i]);
    AdmitAddsBytes(regions, free[i]);
    TotalFreePrefix(free, i);
    assert free[..i + 1] == free[..i] + [free[i]];
    InSomeSnoc(free[..i], free[i]);
    AdmitLength(regions, free[i]);
  }

  lemma AdmitLength(regions: seq<CarveRegion>, next: Region)
    ensures |Admit(regions, next)|
      == |regions| + if regions != [] && regions[|regions| - 1].End() == next.offset then 0 else 1
  {
  }

  lemma SkipEmpty(regions: seq<CarveRegion>, free: seq<Region>, i: nat, sourceLen: nat)
    requires i < |free| && free[i].len == 0 && AdmittedUpTo(regions, free, i, sourceLen)
    ensures AdmittedUpTo(regions, free, i + 1, sourceLen)
  {
    hide Spaced, Admitted, InSome, TotalLen, TotalFree;
    TotalFreePrefix(free, i);
    assert free[..i + 1] == free[..i] + [free[i]];
    InSomeSnoc(free[..i], free[i]);
  }

  /** Bytes after the last admitted region are not admitted. */
  lemma PastIsOut(regions: seq<CarveRegion>, x: int)
    requires Spaced(regions) && (regions != [] ==> regions[|regions| - 1].End() <= x)
    ensures !Admitted(regions, x)
  {
  }

  lemma InSomePrefix(free: seq<Region>, i: nat)
    requires i <= |free|
    ensures forall x: int :: InSome(free[..i], x) ==> InSome(free, x)
  {
  }

  /** Some free byte was not admitted. */
  ghost predicate LeavesOut(regions: seq<CarveRegion>, free: seq<Region>) {
    exists x: int :: InSome(free, x) && !Admitted(regions, x)
  }

  /** What admission promises of its result. */
  ghost predicate AdmissionOf(regions: seq<CarveRegion>, limitReached: bool, free: seq<Region>, sourceLen: nat) {
    && Admissible(regions, sourceLen, DEEP_LIMITS) && Spaced(regions)
    && (forall x: int :: Admitted(regions, x) ==> InSome(free, x))
    && (limitReached <==> LeavesOut(regions, free))
    && (limitReached ==> OverLimit(free, sourceLen))
    && (Parted(free) && OverLimit(free, sourceLen) ==> limitReached)
  }

  lemma AllAdmitted(regions: seq<CarveRegion>, free: seq<Region>, sourceLen: nat)
    requires sourceLen < U64_LIMIT && AdmittedUpTo(regions, free, |free|, sourceLen)
    ensures AdmissionOf(regions, false, free, sourceLen)
  {
    assert free[..|free|] == free;
    SpacedTotal(regions, sourceLen);
    SpacedApart(regions);
    hide Spaced, Admitted, InSome, TotalLen, TotalFree, AllApart;
  }

  /** Stopping before region `i`, for any of the three reasons. */
  lemma StopBefore(regions: seq<CarveRegion>, free: seq<Region>, i: nat, sourceLen: nat)
    requires sourceLen < U64_LIMIT && i < |free| && AdmittedUpTo(regions, free, i, sourceLen) && free[i].len > 0
    requires || free[i].End() > sourceLen
             || TotalLen(regions) == DEEP_MAX_SCAN_BYTES
             || |regions| == DEEP_MAX_REGIONS
    ensures AdmissionOf(regions, true, free, sourceLen)
  {
    hide Spaced, Admitted, InSome, TotalLen, TotalFree, AllApart, Parted;
    SpacedTotal(regions, sourceLen);
    SpacedApart(regions);
    PastIsOut(regions, free[i].offset);
    InSomePrefix(free, i);
    TotalFreePrefix(free, i);
    HasInSome(free, i, free[i].offset);
    assert LeavesOut(regions, free);
  }

  /** Stopping inside region `i`, of which only the first `n` bytes fit. */
  lemma StopInside(regions: seq<CarveRegion>, free: seq<Region>, i: nat, sourceLen: nat, n: nat)
    requires sourceLen < U64_LIMIT && i < |free| && AdmittedUpTo(regions, free, i, sourceLen)
    requires 0 < n < free[i].len && free[i].End() <= sourceLen && TotalLen(regions) + n == DEEP_MAX_SCAN_BYTES
    requires |regions| < DEEP_MAX_REGIONS || regions[|regions| - 1].End() == free[i].offset
    ensures AdmissionOf(Admit(regions, Region(free[i].offset, n)), true, free, sourceLen)
  {
    hide Spaced, Admitted, InSome, TotalLen, TotalFree, AllApart, Parted, Admit;
    var part := Region(free[i].offset, n);
    var after := Admit(regions, part);
    AdmitKeeps(regions, part);
    AdmitAddsBytes(regions, part);
    AdmitLength(regions, part);
    SpacedTotal(after, sourceLen);
    SpacedApart(after);
    PastIsOut(after, part.End());
    InSomePrefix(free, i);
    TotalFreePrefix(free, i);
    HasInSome(free, i, part.End());
    PartInSome(free, i, n);
    assert LeavesOut(after, free);
  }

  lemma HasInSome(free: seq<Region>, i: nat, x: int)
    requires i < |free| && free[i].Has(x)
    ensures InSome(free, x)
  {
    assert free[i] in free;
  }

  lemma PartInSome(free: seq<Region>, i: nat, n: nat)
    requires i < |free| && n <= free[i].len
    ensures forall x: int :: Region(free[i].offset, n).Has(x) ==> InSome(free, x)
  {
    assert forall x: int :: Region(free[i].offset, n).Has(x) ==> free[i] in free && free[i].Has(x);
  }

  /**
   * `admit_regions`: what it admits always passes the carver's checks and consists of free bytes only; it reports a
   * limit exactly when it leaves a free byte out, and never without free space past the source's end or over a limit.
   */
  method AdmitRegions(free: seq<Region>, sourceLen: nat) returns (regions: seq<CarveRegion>, limitReached: bool)
    requires InOrder(free) && sourceLen < U64_LIMIT
    ensures AdmissionOf(regions, limitReached, free, sourceLen)
  {
    hide AdmissionOf, AdmittedUpTo, TotalLen;
    regions, limitReached := [], false;
    NothingAdmitted(free, sourceLen);
    for i := 0 to |free|
      invariant !limitReached && AdmittedUpTo(regions, free, i, sourceLen)
    {
      var region := free[i];
      AdmittedBounds(regions, free, i, sourceLen);
      if region.len == 0 {
        SkipEmpty(regions, free, i, sourceLen);
        continue;
      }
      var remaining := DEEP_MAX_SCAN_BYTES - TotalLen(regions);
      if region.End() > sourceLen || remaining == 0 {
        StopBefore(regions, free, i, sourceLen);
        return regions, true;
      }
      var admitted := Region(region.offset, Min(region.len, remaining));
      if |regions| == DEEP_MAX_REGIONS && regions[|regions| - 1].End() != admitted.offset {
        StopBefore(regions, free, i, sourceLen);
        return regions, true;
      }
      if admitted.len < region.len {
        StopInside(regions, free, i, sourceLen, admitted.len);
        return Admit(regions, admitted), true;
      }
      AdmitOne(regions, free, i, sourceLen);
      regions := Admit(regions, admitted);
    }
    AllAdmitted(regions, free, sourceLen);
  }

  lemma AdmittedBounds(regions: seq<CarveRegion>, free: seq<Region>, i: nat, sourceLen: nat)
    requires i <= |free| && AdmittedUpTo(regions, free, i, sourceLen)
    ensures TotalLen(regions) <= DEEP_MAX_SCAN_BYTES && |regions| <= DEEP_MAX_REGIONS
  {
    hide Spaced, Admitted, InSome, TotalLen, TotalFree, Parted;
  }
}
