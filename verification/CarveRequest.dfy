/** Admitting the regions of a request, and the whole carve over them (crates/carving/src/lib.rs:183-312). */
module CarveRequest {
  import opened Common
  import opened Sorting
  import opened Intervals
  import opened Sources
  import opened Candidates
  import opened CarveSpec
  import opened Carving
  import opened CarveScan

  datatype CarveError =
    | InvalidLimits
    | RegionLimitExceeded(requested: nat, max: nat)
    | RegionSizeOverflow
    | ScanByteLimitExceeded(requested: nat, max: nat)
    | RegionOutOfBounds(index: nat)
    | OverlappingRegions(first: nat, second: nat)

  function TotalLen(regions: seq<CarveRegion>): nat {
    if regions == [] then 0 else TotalLen(regions[..|regions| - 1]) + regions[|regions| - 1].len
  }

  predicate Apart(a: CarveRegion, b: CarveRegion) {
    a.End() <= b.offset || b.End() <= a.offset
  }

  ghost predicate AllApart(regions: seq<CarveRegion>) {
    forall i, j :: 0 <= i < j < |regions| ==> Apart(regions[i], regions[j])
  }

  /** The regions the carver agrees to read. */
  ghost predicate Admissible(regions: seq<CarveRegion>, sourceLen: nat, limits: Limits) {
    && |regions| <= limits.maxRegions
    && (forall r :: r in regions ==> r.End() <= sourceLen)
    && TotalLen(regions) < U64_LIMIT && TotalLen(regions) <= limits.maxScanBytes
    && AllApart(regions)
  }

  datatype Entry = Entry(offset: nat, end: nat, index: nat)

  function EntryKey(e: Entry): int {
    e.offset * U64_LIMIT + e.end
  }

  function EntryOf(regions: seq<CarveRegion>, i: nat): Entry
    requires i < |regions|
  {
    Entry(regions[i].offset, regions[i].End(), i)
  }

  function Entries(regions: seq<CarveRegion>): (entries: seq<Entry>)
    ensures |entries| == |regions|
    ensures forall i :: 0 <= i < |entries| ==> entries[i] == EntryOf(regions, i)
  {
    seq(|regions|, i requires 0 <= i < |regions| => EntryOf(regions, i))
  }

  /** No entry occurs twice, before or after sorting. */
  lemma {:induction false} EachOnce<T(!new)>(s: seq<T>, i: nat, j: nat)
    requires i < j < |s| && s[i] == s[j]
    ensures multiset(s)[s[i]] >= 2
  {
    assert s == s[..j] + s[j..];
    assert s[..j][i] in multiset(s[..j]);
    assert s[j..][0] in multiset(s[j..]);
  }

  lemma {:induction false} DistinctOnce<T(!new)>(s: seq<T>)
    requires forall i, j :: 0 <= i < j < |s| ==> s[i] != s[j]
    ensures forall x :: multiset(s)[x] <= 1
  {
    if s != [] {
      var rest, last := s[..|s| - 1], s[|s| - 1];
      assert s == rest + [last];
      DistinctOnce(rest);
      assert last !in multiset(rest);
    }
  }

  /** Sorting keeps the entries of the regions, each at one position. */
  lemma OrderedIndices(regions: seq<CarveRegion>, ordered: seq<Entry>)
    requires multiset(ordered) == multiset(Entries(regions))
    ensures forall k :: 0 <= k < |ordered| ==>
      ordered[k].index < |regions| && ordered[k] == EntryOf(regions, ordered[k].index)
    ensures forall j, k :: 0 <= j < k < |ordered| ==> ordered[j].index != ordered[k].index
    ensures forall i :: 0 <= i < |regions| ==> EntryOf(regions, i) in ordered
  {
    var entries := Entries(regions);
    forall k | 0 <= k < |ordered|
      ensures ordered[k].index < |regions| && ordered[k] == EntryOf(regions, ordered[k].index)
    {
      assert ordered[k] in multiset(ordered);
      assert ordered[k] in entries;
    }
    forall i | 0 <= i < |regions|
      ensures EntryOf(regions, i) in ordered
    {
      assert entries[i] in multiset(entries);
      assert entries[i] in multiset(ordered);
    }
    DistinctOnce(entries);
    forall j, k | 0 <= j < k < |ordered|
      ensures ordered[j].index != ordered[k].index
    {
      if ordered[j] == ordered[k] {
        EachOnce(ordered, j, k);
      }
    }
  }

  ghost predicate AdjacentApart(ordered: seq<Entry>) {
    forall k :: 0 < k < |ordered| ==> ordered[k - 1].end <= ordered[k].offset
  }

  /** Neighbours apart in sorted order means all apart. */
  lemma {:induction false} AdjacentSuffices(ordered: seq<Entry>, j: nat, k: nat)
    requires j < k < |ordered| && AdjacentApart(ordered)
    requires forall i :: 0 <= i < |ordered| ==> ordered[i].offset <= ordered[i].end
    ensures ordered[j].end <= ordered[k].offset
    decreases k
  {
    if j + 1 < k {
      AdjacentSuffices(ordered, j, k - 1);
    }
  }

  lemma ApartFromOrder(regions: seq<CarveRegion>, ordered: seq<Entry>)
    requires multiset(ordered) == multiset(Entries(regions)) && AdjacentApart(ordered)
    ensures AllApart(regions)
  {
    OrderedIndices(regions, ordered);
    forall i, j | 0 <= i < j < |regions|
      ensures Apart(regions[i], regions[j])
    {
      var a: nat :| a < |ordered| && ordered[a] == EntryOf(regions, i);
      var b: nat :| b < |ordered| && ordered[b] == EntryOf(regions, j);
      if a < b {
        AdjacentSuffices(ordered, a, b);
      } else {
        AdjacentSuffices(ordered, b, a);
      }
    }
  }

  lemma NotApart(regions: seq<CarveRegion>, ordered: seq<Entry>, k: nat)
    requires multiset(ordered) == multiset(Entries(regions))
    requires 0 < k < |ordered| && ordered[k].offset < ordered[k - 1].end
    requires ordered[k - 1].offset <= ordered[k].offset
    requires ordered[k - 1].offset == ordered[k].offset ==> ordered[k - 1].end <= ordered[k].end
    ensures ordered[k - 1].index < |regions| && ordered[k].index < |regions| && !AllApart(regions)
    ensures ordered[k - 1].index != ordered[k].index && !Apart(regions[ordered[k - 1].index], regions[ordered[k].index])
  {
    OrderedIndices(regions, ordered);
    var i, j := ordered[k - 1].index, ordered[k].index;
    assert !Apart(regions[i], regions[j]) && !Apart(regions[j], regions[i]);
  }

  /** The error names a condition the request violates. */
  ghost predicate Violated(error: CarveError, regions: seq<CarveRegion>, sourceLen: nat, limits: Limits) {
    match error
    case InvalidLimits => !ValidLimits(limits)
    case RegionLimitExceeded(requested, max) => requested == |regions| > limits.maxRegions == max
    case RegionSizeOverflow => exists k :: 0 <= k <= |regions| && TotalLen(regions[..k]) >= U64_LIMIT
    case ScanByteLimitExceeded(requested, max) => requested == TotalLen(regions) > limits.maxScanBytes == max
    case RegionOutOfBounds(index) => index < |regions| && regions[index].End() > sourceLen
    case OverlappingRegions(first, second) =>
      first < |regions| && second < |regions| && first != second && !Apart(regions[first], regions[second])
  }

  lemma {:induction false} TotalPrefix(regions: seq<CarveRegion>, k: nat)
    requires k <= |regions|
    ensures TotalLen(regions[..k]) <= TotalLen(regions)
  {
    if k < |regions| {
      TotalPrefix(regions[..|regions| - 1], k);
      assert regions[..|regions| - 1][..k] == regions[..k];
    } else {
      assert regions[..k] == regions;
    }
  }

  method SumLens(regions: seq<CarveRegion>, sourceLen: nat, limits: Limits) returns (r: Result<nat, CarveError>)
    ensures r.Ok? <==>
      (forall i :: 0 <= i < |regions| ==> regions[i].End() <= sourceLen) && TotalLen(regions) < U64_LIMIT
    ensures r.Ok? ==> r.value == TotalLen(regions)
    ensures r.Err? ==> Violated(r.error, regions, sourceLen, limits)
  {
    var requested: nat := 0;
    for index := 0 to |regions|
      invariant requested == TotalLen(regions[..index]) < U64_LIMIT
      invariant forall i :: 0 <= i < index ==> regions[i].End() <= sourceLen
    {
      if regions[index].End() > sourceLen {
        return Err(RegionOutOfBounds(index));
      }
      assert regions[..index + 1][..index] == regions[..index];
      if requested + regions[index].len >= U64_LIMIT {
        TotalPrefix(regions, index + 1);
        return Err(RegionSizeOverflow);
      }
      requested := requested + regions[index].len;
    }
    assert regions[..|regions|] == regions;
    return Ok(requested);
  }

  /** `validate_regions` accepts exactly the admissible requests. */
  method ValidateRegions(sourceLen: nat, regions: seq<CarveRegion>, limits: Limits) returns (r: Result<nat, CarveError>)
    requires sourceLen < U64_LIMIT
    ensures r.Ok? <==> Admissible(regions, sourceLen, limits)
    ensures r.Ok? ==> r.value == TotalLen(regions)
    ensures r.Err? ==> Violated(r.error, regions, sourceLen, limits)
  {
    if |regions| > limits.maxRegions {
      return Err(RegionLimitExceeded(|regions|, limits.maxRegions));
    }
    var requested :- SumLens(regions, sourceLen, limits);
    if requested > limits.maxScanBytes {
      return Err(ScanByteLimitExceeded(requested, limits.maxScanBytes));
    }
    var ordered := SortBy(EntryKey, Entries(regions));
    hide Sorting.SortBy, Sorting.SortedBy, AllApart, Apart, TotalLen;
    var k := 1;
    while k < |ordered|
      invariant 1 <= k && forall i :: 0 < i < k && i < |ordered| ==> ordered[i - 1].end <= ordered[i].offset
    {
      if ordered[k].offset < ordered[k - 1].end {
        KeyOrder(regions, sourceLen, ordered, k);
        NotApart(regions, ordered, k);
        return Err(OverlappingRegions(ordered[k - 1].index, ordered[k].index));
      }
      k := k + 1;
    }
    ApartFromOrder(regions, ordered);
    return Ok(requested);
  }

  lemma KeyOrder(regions: seq<CarveRegion>, sourceLen: nat, ordered: seq<Entry>, k: nat)
    requires multiset(ordered) == multiset(Entries(regions)) && SortedBy(EntryKey, ordered)
    requires 0 < k < |ordered| && sourceLen < U64_LIMIT && forall i :: 0 <= i < |regions| ==>
      regions[i].End() <= sourceLen
    ensures ordered[k - 1].offset <= ordered[k].offset
    ensures ordered[k - 1].offset == ordered[k].offset ==> ordered[k - 1].end <= ordered[k].end
  {
    OrderedIndices(regions, ordered);
    assert EntryKey(ordered[k - 1]) <= EntryKey(ordered[k]);
  }

  // ---------- The whole carve ----------

  ghost predicate DistinctIds(candidates: seq<Candidate>) {
    forall j, k :: 0 <= j < k < |candidates| ==> candidates[j].id != candidates[k].id
  }

  ghost predicate FoundSomewhere(data: seq<Byte>, digest: seq<Byte> -> seq<Byte>, regions: seq<CarveRegion>,
                                 candidate: Candidate, evidence: Evidence)
  {
    exists r :: r in regions && FoundIn(data, digest, r, candidate, evidence)
  }

  /** Everything reported is real, once; and unless partial, it is everything there is, in scan order. */
  ghost predicate Honest(findings: Findings, data: seq<Byte>, digest: seq<Byte> -> seq<Byte>,
                         regions: seq<CarveRegion>)
  {
    && |findings.candidates| == |findings.evidence|
    && (forall k :: 0 <= k < |findings.candidates| ==>
          FoundSomewhere(data, digest, regions, findings.candidates[k], findings.evidence[k]))
    && DistinctIds(findings.candidates)
    && (!findings.isPartial ==> findings.candidates == CarvedAll(data, regions))
  }

  ghost predicate ReadsInRegions(log: seq<Range>, regions: seq<CarveRegion>) {
    forall k :: 0 <= k < |log| ==> exists r :: r in regions && r.offset <= log[k].start && log[k].end <= r.End()
  }

  lemma RegionDone(before: Findings, now: Findings, data: seq<Byte>, digest: seq<Byte> -> seq<Byte>,
                   regions: seq<CarveRegion>, i: nat)
    requires i < |regions| && AllApart(regions) && Honest(before, data, digest, regions[..i])
    requires ScannedTo(before, now, data, digest, regions[i], regions[i].End())
    ensures Honest(now, data, digest, regions[..i + 1])
  {
    var done, next := regions[..i], regions[..i + 1];
    assert next[..i] == done && next[i] == regions[i];
    assert regions[i] in next;
    forall k | 0 <= k < |now.candidates|
      ensures FoundSomewhere(data, digest, next, now.candidates[k], now.evidence[k])
    {
      hide FoundIn;
      if k < |before.candidates| {
        assert FoundSomewhere(data, digest, done, before.candidates[k], before.evidence[k]);
      }
    }
    forall j, k | 0 <= j < k < |now.candidates|
      ensures now.candidates[j].id != now.candidates[k].id
    {
      if j < |before.candidates| <= k {
        IdElsewhere(data, digest, regions, i, before.candidates[j], before.evidence[j]);
      }
    }
  }

  lemma IdElsewhere(data: seq<Byte>, digest: seq<Byte> -> seq<Byte>, regions: seq<CarveRegion>, i: nat,
                    candidate: Candidate, evidence: Evidence)
    requires i < |regions| && AllApart(regions)
    requires FoundSomewhere(data, digest, regions[..i], candidate, evidence)
    ensures !(regions[i].offset <= candidate.id < regions[i].End())
  {
    var j: nat :| j < i && FoundIn(data, digest, regions[j], candidate, evidence);
    assert Apart(regions[j], regions[i]);
  }

  lemma MoreReads(before: seq<Range>, after: seq<Range>, regions: seq<CarveRegion>, region: CarveRegion)
    requires ReadsInRegions(before, regions) && region in regions
    requires ReadsAdded(before, after, region.offset, region.End())
    ensures ReadsInRegions(after, regions)
  {
    forall k | 0 <= k < |after|
      ensures exists r :: r in regions && r.offset <= after[k].start && after[k].end <= r.End()
    {
      assert k < |before| ==> after[k] == before[k];
    }
  }

  /**
   * `carve_jpegs_with_evidence`: an admissible request is always answered, with real and distinct candidates only,
   * within every budget, touching only the regions; and a report that is not partial missed nothing.
   */
  method CarveJpegs(reader: SourceReader, regions: seq<CarveRegion>, limits: Limits, digest: seq<Byte> -> seq<Byte>)
    returns (r: Result<CarveReport, CarveError>)
    requires reader.source.Truthful() && |reader.source.data| < U64_LIMIT && reader.log == []
    modifies reader
    ensures r.Ok? <==> ValidLimits(limits) && Admissible(regions, |reader.source.data|, limits)
    ensures r.Err? ==> Violated(r.error, regions, |reader.source.data|, limits)
    ensures r.Ok? ==> fresh(r.value) && r.value.reader == reader && r.value.Consistent(limits)
    ensures r.Ok? ==> Honest(FindingsOf(r.value), reader.source.data, digest, regions)
    ensures r.Ok? ==> r.value.bytesScanned <= r.value.bytesRequested == TotalLen(regions)
    ensures r.Ok? && !r.value.isPartial ==> r.value.bytesScanned == TotalLen(regions)
    ensures ReadsInRegions(reader.log, regions)
  {
    if !ValidLimits(limits) {
      return Err(InvalidLimits);
    }
    var bytesRequested :- ValidateRegions(|reader.source.data|, regions, limits);
    var report := new CarveReport(reader, bytesRequested, limits);
    ScanRegions(reader, regions, limits, report, digest);
    return Ok(report);
  }

  method ScanRegions(reader: SourceReader, regions: seq<CarveRegion>, limits: Limits, report: CarveReport,
                     digest: seq<Byte> -> seq<Byte>)
    requires reader.source.Truthful() && report.reader == reader && |reader.source.data| < U64_LIMIT && reader.log == []
    requires ValidLimits(limits) && Admissible(regions, |reader.source.data|, limits)
    requires report.Open(limits) && report.bytesScanned == 0 && FindingsOf(report) == Findings([], [], false)
    modifies report, reader
    ensures report.Consistent(limits)
    ensures Honest(FindingsOf(report), reader.source.data, digest, regions)
    ensures report.bytesScanned <= TotalLen(regions)
    ensures !report.isPartial ==> report.bytesScanned == TotalLen(regions)
    ensures ReadsInRegions(reader.log, regions)
  {
    ghost var data := reader.source.data;
    assert Honest(FindingsOf(report), data, digest, regions[..0]);
    assert report.Consistent(limits);
    hide Honest, ScannedTo, ReadsInRegions, CarveReport.Open, CarveReport.Consistent, AllApart, FindingsOf,
         ReadsAdded, Source.Truthful;
    for i := 0 to |regions|
      invariant report.Open(limits) && report.Consistent(limits)
      invariant Honest(FindingsOf(report), data, digest, regions[..i])
      invariant report.bytesScanned <= TotalLen(regions[..i])
      invariant !report.isPartial ==> report.bytesScanned == TotalLen(regions[..i])
      invariant ReadsInRegions(reader.log, regions)
    {
      ghost var before, logged := FindingsOf(report), reader.log;
      assert regions[..i + 1][..i] == regions[..i];
      var stop := ScanRegion(reader, regions[i], limits, report, digest);
      RegionDone(before, FindingsOf(report), data, digest, regions, i);
      MoreReads(logged, reader.log, regions, regions[i]);
      if stop {
        StillHonest(FindingsOf(report), data, digest, regions, i + 1);
        TotalPrefix(regions, i + 1);
        return;
      }
    }
    assert regions[..|regions|] == regions;
  }

  lemma StillHonest(findings: Findings, data: seq<Byte>, digest: seq<Byte> -> seq<Byte>, regions: seq<CarveRegion>,
                    i: nat)
    requires i <= |regions| && findings.isPartial && Honest(findings, data, digest, regions[..i])
    ensures Honest(findings, data, digest, regions)
  {
    hide FoundIn;
    forall k | 0 <= k < |findings.candidates|
      ensures FoundSomewhere(data, digest, regions, findings.candidates[k], findings.evidence[k])
    {
      assert FoundSomewhere(data, digest, regions[..i], findings.candidates[k], findings.evidence[k]);
    }
  }

  /** The full list is exactly the images that lie wholly inside a region, nested ones included. */
  lemma {:induction false} CarvedAllExact(data: seq<Byte>, regions: seq<CarveRegion>)
    ensures forall c: Candidate ::
        c in CarvedAll(data, regions) <==> exists r :: r in regions && IsCarved(data, r, c)
  {
    if regions != [] {
      var rest, last := regions[..|regions| - 1], regions[|regions| - 1];
      assert regions == rest + [last];
      CarvedAllExact(data, rest);
      forall c: Candidate
        ensures c in CarvedAll(data, regions) <==> exists r :: r in regions && IsCarved(data, r, c)
      {
        CarvedHere(data, last, c);
      }
    }
  }

  ghost predicate IsCarved(data: seq<Byte>, region: CarveRegion, candidate: Candidate) {
    var hit := Hit(candidate.id, candidate.size);
    candidate == CarvedCandidate(hit, region.availability) && region.offset <= hit.offset &&
      ImageAt(data, hit, region.End())
  }

  lemma CarvedHere(data: seq<Byte>, region: CarveRegion, candidate: Candidate)
    ensures candidate in CarvedBefore(data, region, region.End()) <==> IsCarved(data, region, candidate)
  {
    var hits := HitsIn(data, region.offset, region.End(), region.End());
    HitsInComplete(data, region.offset, region.End(), region.End());
    var hit := Hit(candidate.id, candidate.size);
    if IsCarved(data, region, candidate) {
      assert hit in hits;
      var i :| 0 <= i < |hits| && hits[i] == hit;
      assert CarvedBefore(data, region, region.End())[i] == candidate;
    }
    if candidate in CarvedBefore(data, region, region.End()) {
      var i :| 0 <= i < |hits| && CarvedCandidate(hits[i], region.availability) == candidate;
      assert hits[i] in hits;
    }
  }
}
