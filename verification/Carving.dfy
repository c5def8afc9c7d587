/** Bounded signature carving over explicit regions (crates/carving/src/lib.rs). */
module Carving {
  import opened Common
  import opened Sorting
  import opened Intervals
  import opened Sources
  import opened Candidates
  import opened Jpeg
  import opened JpegValidators
  import opened CarveSpec

  const MAX_CHUNK_SIZE: nat := 4 * 1024 * 1024
  const MAX_CANDIDATE_BYTES: nat := 512 * 1024 * 1024
  const MAX_CANDIDATES: nat := 100_000
  const MAX_REGIONS: nat := 1_000_000
  const MAX_SIGNATURE_ATTEMPTS: nat := 100_000_000
  const MAX_VALIDATION_BYTES: nat := 16 * 1024 * 1024 * 1024 * 1024
  const INITIAL_VALIDATION_READ_BYTES: nat := 256
  const MAX_BAD_RANGES_PER_READ: nat := 8_192

  datatype Limits = Limits(
    chunkSize: nat, maxCandidateBytes: nat, maxCandidates: nat, maxRegions: nat,
    maxScanBytes: nat, maxSignatureAttempts: nat, maxValidationBytes: nat)

  predicate ValidLimits(limits: Limits) {
    && 2 <= limits.chunkSize <= MAX_CHUNK_SIZE
    && 0 < limits.maxCandidateBytes <= MAX_CANDIDATE_BYTES
    && 0 < limits.maxCandidates <= MAX_CANDIDATES
    && 0 < limits.maxRegions <= MAX_REGIONS
    && 0 < limits.maxScanBytes
    && 0 < limits.maxSignatureAttempts <= MAX_SIGNATURE_ATTEMPTS
    && 0 < limits.maxValidationBytes <= MAX_VALIDATION_BYTES
  }

  datatype CarveRegion = CarveRegion(offset: nat, len: nat, availability: Availability) {
    function End(): nat {
      offset + len
    }
  }

  datatype PartialReason = ReadError | CandidateLimit | CandidateByteLimit | SignatureAttemptLimit | ValidationByteLimit

  datatype Evidence = Evidence(candidateId: nat, physicalOffset: nat, len: nat, contentSha256: seq<Byte>)

  datatype CandidateRead =
    | ValidImage(len: nat, sha256: seq<Byte>)
    | NotAnImage
    | Truncated
    | ByteLimit
    | ValidationLimit
    | ReadFailure

  // ---------- Read outcomes, tolerantly ----------

  /** A report the carver trusts; anything else makes the whole request unreadable. */
  ghost predicate Trusted(n: nat, outcome: ReadOutcome) {
    |outcome.badRanges| <= MAX_BAD_RANGES_PER_READ && Coherent(n, outcome)
  }

  function NonEmptyRanges(bad: seq<BadRange>): (ranges: seq<Range>)
    ensures NonEmpty(ranges)
    ensures forall x: int :: In(ranges, x) <==> Reported(bad, x)
    ensures forall r :: r in ranges ==> exists b :: b in bad && r.end == b.offset + b.len
  {
    if bad == [] then []
    else
      var rest := NonEmptyRanges(bad[..|bad| - 1]);
      var last := bad[|bad| - 1];
      assert bad == bad[..|bad| - 1] + [last];
      assert forall x: int :: Reported(bad, x) <==> Reported(bad[..|bad| - 1], x) || last.Covers(x);
      if last.len == 0 then rest
      else
        var range := Range(last.offset, last.offset + last.len);
        assert forall x: int :: range.Contains(x) <==> last.Covers(x);
        InSnoc(rest, range);
        rest + [range]
  }

  /** `normalize_bad_ranges` of the carver: merge, or give the whole request up. */
  method NormalizeBadRanges(requestedLen: nat, outcome: ReadOutcome) returns (ranges: seq<Range>)
    requires 0 < requestedLen < U64_LIMIT
    ensures Normal(ranges) && Within(ranges, requestedLen)
    ensures Trusted(requestedLen, outcome) ==> forall x: int :: In(ranges, x) <==> Reported(outcome.badRanges, x)
    ensures !Trusted(requestedLen, outcome) ==> ranges == [Range(0, requestedLen)]
    ensures ranges != [] <==> Suspicious(requestedLen, outcome)
  {
    var bad := outcome.badRanges;
    if |bad| > MAX_BAD_RANGES_PER_READ {
      return [Range(0, requestedLen)];
    }
    for k := 0 to |bad|
      invariant forall j :: 0 <= j < k ==> bad[j].offset + bad[j].len <= requestedLen
    {
      if bad[k].offset + bad[k].len >= U64_LIMIT || bad[k].offset + bad[k].len > requestedLen {
        assert bad[k] in bad;
        return [Range(0, requestedLen)];
      }
    }
    var merged := MergeRanges(NonEmptyRanges(bad));
    MergedWithin(merged, bad, requestedLen);
    TotalIsCount(merged, (i: nat) => Reported(bad, i), requestedLen);
    SomeRange(merged);
    if outcome.bytesValid != requestedLen - Total(merged) {
      return [Range(0, requestedLen)];
    }
    return merged;
  }

  lemma SomeRange(ranges: seq<Range>)
    requires Normal(ranges)
    ensures ranges != [] <==> exists x: int :: In(ranges, x)
  {
    if ranges != [] {
      assert ranges[0] in ranges && ranges[0].Contains(ranges[0].start);
      assert In(ranges, ranges[0].start);
    }
  }

  lemma MergedWithin(merged: seq<Range>, bad: seq<BadRange>, n: nat)
    requires Normal(merged) && (forall x: int :: In(merged, x) <==> Reported(bad, x))
    requires forall b :: b in bad ==> b.offset + b.len <= n
    ensures Within(merged, n)
  {
    forall r | r in merged
      ensures r.end <= n
    {
      assert r.Contains(r.end - 1);
      assert In(merged, r.end - 1);
    }
  }

  /** A trusted read without bad ranges returned the source's own bytes. */
  lemma CleanRead(source: Source, p: nat, n: nat, ranges: seq<Range>)
    requires source.TruthfulAt(p, n) && Trusted(n, source.report(p, n))
    requires forall x: int :: In(ranges, x) <==> Reported(source.report(p, n).badRanges, x)
    ensures forall i :: 0 <= i < n && !In(ranges, i) ==>
      source.Readable(p + i) && source.RawBytes(p, n)[i] == source.data[p + i]
    ensures ranges == [] ==> p + n <= |source.data| || n == 0
    ensures ranges == [] && n > 0 ==> source.RawBytes(p, n) == source.data[p..p + n]
  {
    forall i | 0 <= i < n && !In(ranges, i)
      ensures source.Readable(p + i) && source.RawBytes(p, n)[i] == source.data[p + i]
    {
      assert !Reported(source.report(p, n).badRanges, i);
      assert source.RawBytes(p, n)[i] == source.RawAt(p + i);
    }
    if ranges == [] && n > 0 {
      assert !In(ranges, n - 1);
    }
  }

  /** The source behind a reader, with the requests made so far. */
  class SourceReader {
    const source: Source
    ghost var log: seq<Range>

    constructor (source: Source)
      ensures this.source == source && log == []
    {
      this.source := source;
      log := [];
    }

    /** Some request so far came back suspicious. */
    ghost predicate SawBad()
      reads this`log
    {
      SomeBad(log, source)
    }

    method ReadAt(p: nat, buffer: array<Byte>, n: nat) returns (outcome: ReadOutcome)
      requires n <= buffer.Length
      modifies buffer, this
      ensures log == old(log) + [Range(p, p + n)]
      ensures SawBad() <==> old(SawBad()) || Suspicious(n, outcome)
      ensures outcome == source.report(p, n)
      ensures buffer[..n] == source.RawBytes(p, n)
    {
      outcome := ReadBestEffort(source, p, buffer, 0, n);
      assert buffer[0..n] == buffer[..n];
      log := log + [Range(p, p + n)];
      BadMore(old(log), source, Range(p, p + n));
    }
  }

  ghost predicate BadAt(source: Source, r: Range) {
    r.start <= r.end && Suspicious(r.end - r.start, source.report(r.start, r.end - r.start))
  }

  ghost predicate SomeBad(log: seq<Range>, source: Source) {
    exists r :: r in log && BadAt(source, r)
  }

  lemma BadMore(log: seq<Range>, source: Source, next: Range)
    ensures SomeBad(log + [next], source) <==> SomeBad(log, source) || BadAt(source, next)
  {
    hide BadAt;
    assert next in log + [next];
  }

  /** An outcome that is not trusted, or that reports some position as unreadable. */
  ghost predicate Suspicious(n: nat, outcome: ReadOutcome) {
    !Trusted(n, outcome) || exists x: int :: Reported(outcome.badRanges, x)
  }

  /** The requests made since `before` all stay inside `[lo, hi)`. */
  ghost predicate ReadsAdded(before: seq<Range>, after: seq<Range>, lo: nat, hi: nat) {
    before <= after && forall k :: |before| <= k < |after| ==> lo <= after[k].start && after[k].end <= hi
  }

  lemma NoReadsYet(log: seq<Range>, lo: nat, hi: nat)
    ensures ReadsAdded(log, log, lo, hi)
  {
  }

  lemma ReadsAddedOne(before: seq<Range>, after: seq<Range>, next: Range, lo: nat, hi: nat)
    requires ReadsAdded(before, after, lo, hi) && lo <= next.start && next.end <= hi
    ensures ReadsAdded(before, after + [next], lo, hi)
  {
  }

  function CarvedCandidate(hit: Hit, availability: Availability): Candidate {
    Candidate(hit.offset, File, hit.len, [ExtentRun(0, Some(hit.offset), hit.len, availability)])
  }

  /** What a carved file restores: its image's own bytes, first to last, once the region is free. */
  lemma CarvedBytes(hit: Hit, b: nat)
    requires b < hit.len
    ensures var c := CarvedCandidate(hit, FreeInSnapshot);
      && c.kind.File? && c.size == hit.len && |c.extents| == 1 && c.extents[0].Covers(b)
      && c.extents[0].End() == c.size && ExtentMeaning(c.extents[0], b) == Physical(hit.offset + b)
  {
  }

  /** A reported candidate and its evidence: a real image of the region, and the digest of its bytes. */
  ghost predicate FoundIn(data: seq<Byte>, digest: seq<Byte> -> seq<Byte>, region: CarveRegion, candidate: Candidate,
                          evidence: Evidence)
  {
    var hit := Hit(candidate.id, candidate.size);
    && candidate == CarvedCandidate(hit, region.availability)
    && region.offset <= hit.offset && ImageAt(data, hit, region.End())
    && evidence == Evidence(hit.offset, hit.offset, hit.len, digest(data[hit.offset..hit.offset + hit.len]))
  }

  class CarveReport {
    const reader: SourceReader
    var candidates: seq<Candidate>
    var evidence: seq<Evidence>
    const bytesRequested: nat
    var bytesScanned: nat
    var isPartial: bool
    var reasons: seq<PartialReason>
    var candidateLimitReached: bool
    var candidateByteLimitHits: nat
    var rejectedSignatures: nat
    var truncatedSignatures: nat
    var signaturesAttempted: nat
    var validationBytesRead: nat
    var signatureAttemptLimitReached: bool
    var validationByteLimitReached: bool

    constructor (reader: SourceReader, bytesRequested: nat, limits: Limits)
      requires ValidLimits(limits)
      ensures this.reader == reader && Consistent(limits) && !isPartial && candidates == [] && evidence == []
      ensures this.bytesRequested == bytesRequested && bytesScanned == 0
    {
      this.reader := reader;
      candidates, evidence := [], [];
      this.bytesRequested := bytesRequested;
      bytesScanned := 0;
      isPartial, reasons := false, [];
      candidateLimitReached, signatureAttemptLimitReached, validationByteLimitReached := false, false, false;
      candidateByteLimitHits, rejectedSignatures, truncatedSignatures := 0, 0, 0;
      signaturesAttempted, validationBytesRead := 0, 0;
    }

    /** Partial exactly when a reason is given, each reason once, and a read error only after a suspicious outcome. */
    ghost predicate Reasoned()
      reads this`isPartial, this`reasons, reader`log
    {
      && (isPartial <==> reasons != [])
      && (ReadError in reasons ==> reader.SawBad())
      && forall i, j :: 0 <= i < j < |reasons| ==> reasons[i] != reasons[j]
    }

    /** No budget is exceeded, and every budget that is given as a reason is spent exactly. */
    ghost predicate WithinBudgets(limits: Limits)
      reads this`candidates, this`evidence, this`reasons, this`candidateLimitReached, this`candidateByteLimitHits,
            this`rejectedSignatures, this`truncatedSignatures, this`signaturesAttempted, this`validationBytesRead,
            this`signatureAttemptLimitReached, this`validationByteLimitReached
    {
      && |candidates| == |evidence| <= limits.maxCandidates
      && signaturesAttempted <= limits.maxSignatureAttempts
      && validationBytesRead <= limits.maxValidationBytes
      && |candidates| + rejectedSignatures + truncatedSignatures + candidateByteLimitHits <= signaturesAttempted
      && (CandidateLimit in reasons <==> |candidates| == limits.maxCandidates)
      && (SignatureAttemptLimit in reasons ==> signaturesAttempted == limits.maxSignatureAttempts)
      && (ValidationByteLimit in reasons ==> validationBytesRead == limits.maxValidationBytes)
      && (CandidateByteLimit in reasons <==> candidateByteLimitHits > 0)
      && (CandidateLimit in reasons <==> candidateLimitReached)
      && (SignatureAttemptLimit in reasons <==> signatureAttemptLimitReached)
      && (ValidationByteLimit in reasons <==> validationByteLimitReached)
    }

    ghost predicate Consistent(limits: Limits)
      reads this, reader`log
    {
      Reasoned() && WithinBudgets(limits)
    }

    /** The scan may go on: the budgets that stop it are not spent. */
    ghost predicate Open(limits: Limits)
      reads this, reader`log
    {
      Consistent(limits) && CandidateLimit !in reasons && ValidationByteLimit !in reasons
    }

    /** One attempt is charged and not yet booked under an outcome. */
    ghost predicate Pending()
      reads this`candidates, this`rejectedSignatures, this`truncatedSignatures, this`candidateByteLimitHits,
            this`signaturesAttempted
    {
      |candidates| + rejectedSignatures + truncatedSignatures + candidateByteLimitHits < signaturesAttempted
    }

    method MarkPartial(reason: PartialReason)
      requires Reasoned() && (reason == ReadError ==> reader.SawBad())
      modifies this`isPartial, this`reasons
      ensures Reasoned() && isPartial
      ensures reasons == if reason in old(reasons) then old(reasons) else old(reasons) + [reason]
    {
      isPartial := true;
      if reason !in reasons {
        reasons := reasons + [reason];
      }
    }

    /** `push_read_issue` for the ranges of one read. */
    method PushReadIssues(badRanges: seq<Range>, limits: Limits)
      requires Open(limits) && (badRanges != [] ==> reader.SawBad())
      modifies this`isPartial, this`reasons
      ensures Open(limits)
      ensures isPartial <==> old(isPartial) || badRanges != []
    {
      if badRanges != [] {
        MarkPartial(ReadError);
      }
    }
  }

  /** What the validation of one signature establishes. */
  ghost predicate Established(read: CandidateRead, data: seq<Byte>, digest: seq<Byte> -> seq<Byte>, start: nat,
                              regionEnd: nat)
  {
    match read
    case ValidImage(len, sha256) =>
      ImageAt(data, Hit(start, len), regionEnd) && sha256 == digest(data[start..start + len])
    case NotAnImage | Truncated => HitsAt(data, start, regionEnd) == []
    case ByteLimit | ValidationLimit | ReadFailure => true
  }

  /** Where the incremental validation stands after `consumed` clean bytes. */
  ghost predicate Inspecting(validator: JpegValidator, hashed: seq<Byte>, data: seq<Byte>, start: nat, consumed: nat)
    reads validator
  {
    && start + consumed <= |data|
    && Live(validator.View())
    && validator.View() == Run(START, data[start..start + consumed])
    && validator.processedBytes == consumed && hashed == data[start..start + consumed]
  }

  method InspectChunk(validator: JpegValidator, hashed: seq<Byte>, chunk: seq<Byte>, ghost data: seq<Byte>,
                      ghost start: nat, ghost consumed: nat, ghost regionEnd: nat)
      returns (status: Status, hashedNow: seq<Byte>)
    requires Inspecting(validator, hashed, data, start, consumed)
    requires start + consumed + |chunk| <= regionEnd <= |data| < U64_LIMIT
    requires chunk == data[start + consumed..start + consumed + |chunk|]
    modifies validator
    ensures status == NeedMore ==> Inspecting(validator, hashedNow, data, start, consumed + |chunk|)
    ensures status == Valid ==> ImageAt(data, Hit(start, validator.processedBytes), regionEnd)
    ensures status == Valid ==> hashedNow == data[start..start + validator.processedBytes]
    ensures status == Invalid ==> HitsAt(data, start, regionEnd) == []
  {
    hide Run;
    ghost var before := data[start..start + consumed];
    var taken;
    taken, status := validator.Feed(chunk);
    hashedNow := hashed + chunk[..taken];
    RunConcat(START, before, chunk);
    assert before + chunk == data[start..start + consumed + |chunk|];
    if status == Valid {
      RunConcat(START, before, chunk[..taken]);
      RunConcat(START, before, chunk[..taken - 1]);
      ghost var image := data[start..start + consumed + taken];
      assert before + chunk[..taken] == image;
      assert before + chunk[..taken - 1] == image[..|image| - 1];
    } else if status == Invalid {
      NoImage(data, start, consumed + |chunk|, regionEnd);
    } else {
      assert chunk[..taken] == chunk;
    }
  }

  method BeginInspection(ghost data: seq<Byte>, ghost start: nat) returns (validator: JpegValidator)
    requires start <= |data|
    ensures fresh(validator) && Inspecting(validator, [], data, start, 0)
  {
    validator := new JpegValidator();
    assert data[start..start + 0] == [];
    RunNothing(START);
  }

  lemma StillOpen(validator: JpegValidator, hashed: seq<Byte>, data: seq<Byte>, start: nat, consumed: nat,
                  regionEnd: nat)
    requires Inspecting(validator, hashed, data, start, consumed) && start + consumed == regionEnd <= |data|
    ensures HitsAt(data, start, regionEnd) == []
  {
    NoImage(data, start, consumed, regionEnd);
  }

  /** One validation read, charged to the budget whether or not it came back clean. */
  method ReadForValidation(reader: SourceReader, p: nat, buffer: array<Byte>, n: nat, limits: Limits,
                           report: CarveReport)
    returns (clean: bool)
    requires 0 < n <= buffer.Length && n < U64_LIMIT && reader.source.Truthful() && report.reader == reader
    requires report.Open(limits)
    requires report.validationBytesRead + n <= limits.maxValidationBytes
    modifies buffer, reader, report`validationBytesRead, report`isPartial, report`reasons
    ensures report.Open(limits) && report.validationBytesRead == old(report.validationBytesRead) + n
    ensures reader.log == old(reader.log) + [Range(p, p + n)]
    ensures clean ==> p + n <= |reader.source.data| && buffer[..n] == reader.source.data[p..p + n]
    ensures report.isPartial <==> old(report.isPartial) || !clean
  {
    hide Coherent;
    var outcome := reader.ReadAt(p, buffer, n);
    report.validationBytesRead := report.validationBytesRead + n;
    var badRanges := NormalizeBadRanges(n, outcome);
    report.PushReadIssues(badRanges, limits);
    clean := badRanges == [];
    if clean {
      assert reader.source.TruthfulAt(p, n);
      CleanRead(reader.source, p, n, badRanges);
    }
  }

  method InspectNext(reader: SourceReader, validator: JpegValidator, hashed: seq<Byte>, start: nat, consumed: nat,
                     buffer: array<Byte>, n: nat, ghost regionEnd: nat, limits: Limits, report: CarveReport,
                     ghost digest: seq<Byte> -> seq<Byte>)
    returns (clean: bool, status: Status, hashedNow: seq<Byte>)
    requires 0 < n <= buffer.Length && reader.source.Truthful() && report.reader == reader && report.Open(limits)
    requires report.validationBytesRead + n <= limits.maxValidationBytes
    requires Inspecting(validator, hashed, reader.source.data, start, consumed)
    requires start + consumed + n <= regionEnd <= |reader.source.data| < U64_LIMIT
    modifies validator, buffer, reader, report`validationBytesRead, report`isPartial, report`reasons
    ensures report.Open(limits) && report.validationBytesRead == old(report.validationBytesRead) + n
    ensures report.isPartial <==> old(report.isPartial) || !clean
    ensures reader.log == old(reader.log) + [Range(start + consumed, start + consumed + n)]
    ensures clean && status == NeedMore ==> Inspecting(validator, hashedNow, reader.source.data, start, consumed + n)
    ensures clean && status == Valid ==>
        Established(ValidImage(validator.processedBytes, digest(hashedNow)), reader.source.data, digest, start,
                    regionEnd)
    ensures clean && status == Invalid ==> Established(NotAnImage, reader.source.data, digest, start, regionEnd)
    ensures Established(ReadFailure, reader.source.data, digest, start, regionEnd)
  {
    hide CarveReport.Open, HitsAt, ImageAt, Inspecting;
    clean := ReadForValidation(reader, start + consumed, buffer, n, limits, report);
    if clean {
      status, hashedNow := InspectChunk(validator, hashed, buffer[..n], reader.source.data, start, consumed, regionEnd);
    } else {
      status, hashedNow := NeedMore, hashed;
    }
  }

  /** The validation loop over the permitted bytes: a verdict, or all of them consumed and none reached. */
  method InspectPermitted(reader: SourceReader, start: nat, permitted: nat, ghost regionEnd: nat, limits: Limits,
                          report: CarveReport, digest: seq<Byte> -> seq<Byte>)
    returns (read: Option<CandidateRead>)
    requires ValidLimits(limits) && report.Open(limits) && reader.source.Truthful() && report.reader == reader
    requires report.validationBytesRead + permitted <= limits.maxValidationBytes
    requires start + permitted <= regionEnd <= |reader.source.data| < U64_LIMIT
    modifies report`validationBytesRead, report`isPartial, report`reasons, reader
    ensures report.Open(limits)
    ensures read.Some? ==> read.value.ValidImage? || read.value.NotAnImage? || read.value.ReadFailure?
    ensures read.Some? ==> Established(read.value, reader.source.data, digest, start, regionEnd)
    ensures read.None? ==> report.validationBytesRead == old(report.validationBytesRead) + permitted
    ensures read.None? && start + permitted == regionEnd ==> HitsAt(reader.source.data, start, regionEnd) == []
    ensures report.isPartial <==> old(report.isPartial) || read == Some(ReadFailure)
    ensures ReadsAdded(old(reader.log), reader.log, start, regionEnd)
  {
    hide ImageAt, HitsAt, Inspecting, ReadsAdded, CarveReport.Open, Source.Truthful, Established;
    NoReadsYet(reader.log, start, regionEnd);
    ghost var data := reader.source.data;
    var buffer := new Byte[Min(limits.chunkSize, permitted)];
    var validator := BeginInspection(data, start);
    var hashed: seq<Byte> := [];
    var consumed := 0;
    while consumed < permitted
      invariant consumed <= permitted
      invariant Inspecting(validator, hashed, data, start, consumed)
      invariant report.Open(limits) && report.isPartial == old(report.isPartial)
      invariant report.validationBytesRead == old(report.validationBytesRead) + consumed
      invariant ReadsAdded(old(reader.log), reader.log, start, regionEnd)
    {
      var preferred := if consumed == 0 then Min(INITIAL_VALIDATION_READ_BYTES, limits.chunkSize) else limits.chunkSize;
      var readLen := Min(preferred, permitted - consumed);
      ghost var logged := reader.log;
      var clean, status;
      clean, status, hashed :=
        InspectNext(reader, validator, hashed, start, consumed, buffer, readLen, regionEnd, limits, report, digest);
      ReadsAddedOne(old(reader.log), logged, Range(start + consumed, start + consumed + readLen), start, regionEnd);
      if !clean {
        return Some(ReadFailure);
      }
      consumed := consumed + readLen;
      if status == Valid {
        return Some(ValidImage(validator.processedBytes, digest(hashed)));
      } else if status == Invalid {
        return Some(NotAnImage);
      }
    }
    if start + permitted == regionEnd {
      StillOpen(validator, hashed, data, start, consumed, regionEnd);
    }
    return None;
  }

  /** Validates one signature against the region, in reads bounded by every budget. */
  method ReadAndInspectCandidate(reader: SourceReader, start: nat, regionEnd: nat, limits: Limits, report: CarveReport,
                                 digest: seq<Byte> -> seq<Byte>) returns (read: CandidateRead)
    requires ValidLimits(limits) && report.Open(limits) && reader.source.Truthful() && report.reader == reader
    requires start < regionEnd <= |reader.source.data| < U64_LIMIT
    modifies report`validationBytesRead, report`isPartial, report`reasons, reader
    ensures report.Open(limits)
    ensures Established(read, reader.source.data, digest, start, regionEnd)
    ensures report.isPartial <==> old(report.isPartial) || read.ReadFailure?
    ensures read.ValidationLimit? ==> report.validationBytesRead == limits.maxValidationBytes
    ensures read.ByteLimit? ==> regionEnd - start > limits.maxCandidateBytes
    ensures ReadsAdded(old(reader.log), reader.log, start, regionEnd)
  {
    var available := regionEnd - start;
    var candidatePermitted := Min(available, limits.maxCandidateBytes);
    var validationRemaining := limits.maxValidationBytes - report.validationBytesRead;
    if validationRemaining == 0 {
      return ValidationLimit;
    }
    var permitted := Min(candidatePermitted, validationRemaining);
    var verdict := InspectPermitted(reader, start, permitted, regionEnd, limits, report, digest);
    match verdict {
      case Some(found) =>
        read := found;
      case None =>
        read := if permitted < candidatePermitted then ValidationLimit
                else if candidatePermitted < available then ByteLimit
                else Truncated;
    }
  }
}
