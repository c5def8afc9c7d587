/** The scan over admitted regions, chunk by chunk (crates/carving/src/lib.rs:157-481). */
module CarveScan {
  import opened Common
  import opened Sorting
  import opened Intervals
  import opened Sources
  import opened Candidates
  import opened CarveSpec
  import opened Carving

  /** The candidates a list of images stands for. */
  function Carved(hits: seq<Hit>, availability: Availability): (s: seq<Candidate>)
    ensures |s| == |hits|
  {
    seq(|hits|, i requires 0 <= i < |hits| => CarvedCandidate(hits[i], availability))
  }

  /** Everything to be reported from the offsets of `region` before `pos`. */
  ghost function CarvedBefore(data: seq<Byte>, region: CarveRegion, pos: nat): seq<Candidate> {
    Carved(HitsIn(data, region.offset, pos, region.End()), region.availability)
  }

  ghost function CarvedAll(data: seq<Byte>, regions: seq<CarveRegion>): seq<Candidate> {
    if regions == [] then []
    else
      var last := regions[|regions| - 1];
      CarvedAll(data, regions[..|regions| - 1]) + CarvedBefore(data, last, last.End())
  }

  lemma CarvedStep(data: seq<Byte>, region: CarveRegion, pos: nat)
    requires region.offset <= pos
    ensures CarvedBefore(data, region, pos + 1) ==
            CarvedBefore(data, region, pos) + Carved(HitsAt(data, pos, region.End()), region.availability)
  {
  }

  datatype Findings = Findings(candidates: seq<Candidate>, evidence: seq<Evidence>, isPartial: bool)

  ghost function FindingsOf(report: CarveReport): Findings
    reads report`candidates, report`evidence, report`isPartial
  {
    Findings(report.candidates, report.evidence, report.isPartial)
  }

  /** Candidates and evidence added to `before`, all from offsets `[lo, hi)` of the region, in order. */
  ghost predicate Gained(before: Findings, now: Findings, data: seq<Byte>, digest: seq<Byte> -> seq<Byte>,
                         region: CarveRegion, lo: nat, hi: nat)
  {
    && before.candidates <= now.candidates && before.evidence <= now.evidence
    && |before.candidates| == |before.evidence| && |now.candidates| == |now.evidence|
    && (before.isPartial ==> now.isPartial)
    && (forall k :: |before.candidates| <= k < |now.candidates| ==>
          FoundIn(data, digest, region, now.candidates[k], now.evidence[k]) && lo <= now.candidates[k].id < hi)
    && forall j, k :: |before.candidates| <= j < k < |now.candidates| ==> now.candidates[j].id < now.candidates[k].id
  }

  /** The region scan that found `before` stands at `pos`; unless partial, nothing before `pos` was missed. */
  ghost predicate ScannedTo(before: Findings, now: Findings, data: seq<Byte>, digest: seq<Byte> -> seq<Byte>,
                            region: CarveRegion, pos: nat)
  {
    && Gained(before, now, data, digest, region, region.offset, pos)
    && (!now.isPartial ==> now.candidates == before.candidates + CarvedBefore(data, region, pos))
  }

  /** What one signature at `start` adds. */
  ghost predicate Processed(before: Findings, now: Findings, data: seq<Byte>, digest: seq<Byte> -> seq<Byte>,
                            region: CarveRegion, start: nat)
  {
    && Gained(before, now, data, digest, region, start, start + 1)
    && (!now.isPartial ==>
          now.candidates == before.candidates + Carved(HitsAt(data, start, region.End()), region.availability))
  }

  lemma ScanStep(before: Findings, now: Findings, next: Findings, data: seq<Byte>, digest: seq<Byte> -> seq<Byte>,
                 region: CarveRegion, pos: nat)
    requires region.offset <= pos
    requires ScannedTo(before, now, data, digest, region, pos) && Processed(now, next, data, digest, region, pos)
    ensures ScannedTo(before, next, data, digest, region, pos + 1)
    ensures now.isPartial ==> next.isPartial
  {
    GainedTwice(before, now, next, data, digest, region, pos);
    CarvedStep(data, region, pos);
    hide FoundIn, CarvedBefore, HitsAt, Carved, Gained;
  }

  lemma GainedTwice(a: Findings, b: Findings, c: Findings, data: seq<Byte>, digest: seq<Byte> -> seq<Byte>,
                    region: CarveRegion, pos: nat)
    requires region.offset <= pos
    requires Gained(a, b, data, digest, region, region.offset, pos) && Gained(b, c, data, digest, region, pos, pos + 1)
    ensures Gained(a, c, data, digest, region, region.offset, pos + 1)
    ensures b.isPartial ==> c.isPartial
  {
    hide FoundIn;
    assert forall k :: 0 <= k < |b.candidates| ==> c.candidates[k] == b.candidates[k] && c.evidence[k] == b.evidence[k];
  }

  /** An offset with no signature, or one the scan could not see because of a reported read failure. */
  lemma ScanSkip(before: Findings, now: Findings, data: seq<Byte>, digest: seq<Byte> -> seq<Byte>,
                 region: CarveRegion, pos: nat)
    requires region.offset <= pos && ScannedTo(before, now, data, digest, region, pos)
    requires now.isPartial || HitsAt(data, pos, region.End()) == []
    ensures ScannedTo(before, now, data, digest, region, pos + 1)
  {
    hide FoundIn;
    CarvedStep(data, region, pos);
  }

  lemma ScanStopped(before: Findings, now: Findings, data: seq<Byte>, digest: seq<Byte> -> seq<Byte>,
                    region: CarveRegion, pos: nat, end: nat)
    requires pos <= end && now.isPartial && ScannedTo(before, now, data, digest, region, pos)
    ensures ScannedTo(before, now, data, digest, region, end)
  {
  }

  /** Appends a validated image; filling the candidate budget stops the scan. */
  method AddCandidate(report: CarveReport, hit: Hit, availability: Availability, sha256: seq<Byte>, limits: Limits)
    returns (stop: bool)
    requires ValidLimits(limits) && report.Open(limits) && report.Pending()
    modifies report`candidates, report`evidence, report`candidateLimitReached, report`isPartial, report`reasons
    ensures report.Consistent(limits)
    ensures report.candidates == old(report.candidates) + [CarvedCandidate(hit, availability)]
    ensures report.evidence == old(report.evidence) + [Evidence(hit.offset, hit.offset, hit.len, sha256)]
    ensures stop ==> report.isPartial
    ensures !stop ==> report.Open(limits) && report.isPartial == old(report.isPartial)
    ensures old(report.isPartial) ==> report.isPartial
  {
    report.evidence := report.evidence + [Evidence(hit.offset, hit.offset, hit.len, sha256)];
    report.candidates := report.candidates + [CarvedCandidate(hit, availability)];
    stop := |report.candidates| == limits.maxCandidates;
    if stop {
      report.candidateLimitReached := true;
      report.MarkPartial(CandidateLimit);
    }
  }

  /** Books a signature that yielded no candidate. */
  method Settle(report: CarveReport, read: CandidateRead, limits: Limits) returns (stop: bool)
    requires report.Open(limits) && report.Pending() && !read.ValidImage?
    requires read.ValidationLimit? ==> report.validationBytesRead == limits.maxValidationBytes
    modifies report`rejectedSignatures, report`truncatedSignatures, report`candidateByteLimitHits,
             report`validationByteLimitReached,
             report`isPartial, report`reasons
    ensures report.Consistent(limits)
    ensures stop <==> read.ValidationLimit?
    ensures report.isPartial <==> old(report.isPartial) || read.ByteLimit? || read.ValidationLimit?
    ensures report.rejectedSignatures == old(report.rejectedSignatures) + (if read.NotAnImage? then 1 else 0)
    ensures report.truncatedSignatures == old(report.truncatedSignatures) + (if read.Truncated? then 1 else 0)
    ensures report.candidateByteLimitHits == old(report.candidateByteLimitHits) + (if read.ByteLimit? then 1 else 0)
    ensures !stop ==> report.Open(limits)
  {
    stop := false;
    match read {
      case NotAnImage =>
        report.rejectedSignatures := report.rejectedSignatures + 1;
      case Truncated =>
        report.truncatedSignatures := report.truncatedSignatures + 1;
      case ByteLimit =>
        report.candidateByteLimitHits := report.candidateByteLimitHits + 1;
        report.MarkPartial(CandidateByteLimit);
      case ValidationLimit =>
        report.validationByteLimitReached := true;
        report.MarkPartial(ValidationByteLimit);
        stop := true;
      case ReadFailure =>
    }
  }

  /** Charges one attempt, or stops when none is left. */
  method ChargeAttempt(report: CarveReport, limits: Limits) returns (stop: bool)
    requires report.Open(limits)
    modifies report`signaturesAttempted, report`signatureAttemptLimitReached, report`isPartial, report`reasons
    ensures report.Consistent(limits)
    ensures stop <==> old(report.signaturesAttempted) == limits.maxSignatureAttempts
    ensures stop ==> report.isPartial
    ensures !stop ==> report.Open(limits) && report.Pending() && report.isPartial == old(report.isPartial)
  {
    stop := report.signaturesAttempted >= limits.maxSignatureAttempts;
    if stop {
      report.signatureAttemptLimitReached := true;
      report.MarkPartial(SignatureAttemptLimit);
    } else {
      report.signaturesAttempted := report.signaturesAttempted + 1;
    }
  }

  /** Reports the outcome of one signature; stopping always leaves a reason behind. */
  method ProcessSignature(reader: SourceReader, start: nat, region: CarveRegion, limits: Limits, report: CarveReport,
                          digest: seq<Byte> -> seq<Byte>) returns (stop: bool)
    requires ValidLimits(limits) && report.Open(limits) && reader.source.Truthful() && report.reader == reader
    requires region.offset <= start < region.End() <= |reader.source.data| < U64_LIMIT
    modifies report, reader
    ensures report.Consistent(limits) && report.bytesScanned == old(report.bytesScanned)
    ensures stop ==> report.isPartial
    ensures !stop ==> report.Open(limits)
    ensures Processed(old(FindingsOf(report)), FindingsOf(report), reader.source.data, digest, region, start)
    ensures ReadsAdded(old(reader.log), reader.log, start, region.End())
  {
    assert |report.candidates| == |report.evidence| && ReadsAdded(reader.log, reader.log, start, region.End());
    hide CarveReport.Consistent, CarveReport.Open, CarveReport.Pending, Processed, ReadsAdded, Source.Truthful,
         Established, HitsAt;
    stop := ChargeAttempt(report, limits);
    if stop {
      ProcessedNone(old(FindingsOf(report)), FindingsOf(report), reader.source.data, digest, region, start);
    } else {
      var read := ReadAndInspectCandidate(reader, start, region.End(), limits, report, digest);
      stop := BookRead(report, read, start, region, limits, reader.source.data, digest, old(FindingsOf(report)));
    }
  }

  /** Turns what the validation established into a candidate or a count. */
  method BookRead(report: CarveReport, read: CandidateRead, start: nat, region: CarveRegion, limits: Limits,
                  ghost data: seq<Byte>, ghost digest: seq<Byte> -> seq<Byte>, ghost before: Findings)
    returns (stop: bool)
    requires ValidLimits(limits) && report.Open(limits) && report.Pending()
    requires region.offset <= start && Established(read, data, digest, start, region.End())
    requires read.ValidationLimit? ==> report.validationBytesRead == limits.maxValidationBytes
    requires before.candidates == report.candidates && before.evidence == report.evidence
    requires |report.candidates| == |report.evidence|
    requires report.isPartial <==> before.isPartial || read.ReadFailure?
    modifies report
    ensures report.Consistent(limits) && report.bytesScanned == old(report.bytesScanned)
    ensures stop ==> report.isPartial
    ensures !stop ==> report.Open(limits)
    ensures Processed(before, FindingsOf(report), data, digest, region, start)
  {
    hide CarveReport.Consistent, CarveReport.Open, CarveReport.Pending, Processed, HitsAt, ImageAt;
    if read.ValidImage? {
      stop := AddCandidate(report, Hit(start, read.len), region.availability, read.sha256, limits);
      ProcessedHit(before, FindingsOf(report), data, digest, region, Hit(start, read.len));
    } else {
      stop := Settle(report, read, limits);
      ProcessedNone(before, FindingsOf(report), data, digest, region, start);
    }
  }

  lemma ProcessedHit(before: Findings, now: Findings, data: seq<Byte>, digest: seq<Byte> -> seq<Byte>,
                     region: CarveRegion, hit: Hit)
    requires |before.candidates| == |before.evidence| && region.offset <= hit.offset && ImageAt(data, hit, region.End())
    requires now.candidates == before.candidates + [CarvedCandidate(hit, region.availability)]
    requires now.evidence ==
        before.evidence + [Evidence(hit.offset, hit.offset, hit.len, digest(data[hit.offset..hit.offset + hit.len]))]
    requires before.isPartial ==> now.isPartial
    ensures Processed(before, now, data, digest, region, hit.offset)
  {
    OneHit(data, hit.offset, hit.len, region.End());
    GainedHit(before, now, data, digest, region, hit);
    hide Gained, FoundIn, ImageAt, HitsAt;
  }

  lemma GainedHit(before: Findings, now: Findings, data: seq<Byte>, digest: seq<Byte> -> seq<Byte>,
                  region: CarveRegion, hit: Hit)
    requires |before.candidates| == |before.evidence| && region.offset <= hit.offset && ImageAt(data, hit, region.End())
    requires now.candidates == before.candidates + [CarvedCandidate(hit, region.availability)]
    requires now.evidence ==
        before.evidence + [Evidence(hit.offset, hit.offset, hit.len, digest(data[hit.offset..hit.offset + hit.len]))]
    requires before.isPartial ==> now.isPartial
    ensures Gained(before, now, data, digest, region, hit.offset, hit.offset + 1)
  {
    hide ImageAt;
  }

  lemma ProcessedNone(before: Findings, now: Findings, data: seq<Byte>, digest: seq<Byte> -> seq<Byte>,
                      region: CarveRegion, start: nat)
    requires |before.candidates| == |before.evidence| && now.candidates == before.candidates
    requires now.evidence == before.evidence
    requires before.isPartial ==> now.isPartial
    requires now.isPartial || HitsAt(data, start, region.End()) == []
    ensures Processed(before, now, data, digest, region, start)
  {
  }

  lemma OneHit(data: seq<Byte>, start: nat, len: nat, end: nat)
    requires ImageAt(data, Hit(start, len), end)
    ensures HitsAt(data, start, end) == [Hit(start, len)]
  {
    OnlyHit(data, start, len, end);
    assert Hit(start, len) in HitsAt(data, start, end);
  }

  /** What a chunk's bytes say about the source: they are its own wherever no failure was reported. */
  ghost predicate Faithful(chunk: seq<Byte>, badRanges: seq<Range>, data: seq<Byte>, absolute: nat) {
    forall i :: 0 <= i < |chunk| && !In(badRanges, i) ==> absolute + i < |data| && chunk[i] == data[absolute + i]
  }

  predicate ReadableAt(index: int, badRanges: seq<Range>)
    ensures ReadableAt(index, badRanges) <==> !In(badRanges, index)
  {
    forall r :: r in badRanges ==> !r.Contains(index)
  }

  /** One offset whose byte and the next are `first` and `second`, each readable or not. */
  method ScanOffset(reader: SourceReader, pos: nat, first: Byte, second: Byte, readable: bool, region: CarveRegion,
                    limits: Limits, report: CarveReport, digest: seq<Byte> -> seq<Byte>, ghost before: Findings)
    returns (stop: bool)
    requires ValidLimits(limits) && report.Open(limits) && reader.source.Truthful() && report.reader == reader
    requires region.offset <= pos && pos + 1 < region.End() <= |reader.source.data| < U64_LIMIT
    requires readable ==> reader.source.data[pos] == first && reader.source.data[pos + 1] == second
    requires !readable ==> report.isPartial
    requires ScannedTo(before, FindingsOf(report), reader.source.data, digest, region, pos)
    modifies report, reader
    ensures report.Consistent(limits) && report.bytesScanned == old(report.bytesScanned)
    ensures !stop ==> report.Open(limits)
    ensures stop || old(report.isPartial) ==> report.isPartial
    ensures ScannedTo(before, FindingsOf(report), reader.source.data, digest, region, pos + 1)
    ensures ReadsAdded(old(reader.log), reader.log, pos, region.End())
  {
    hide ScannedTo, Processed, HitsAt, Source.Truthful, CarveReport.Consistent;
    ghost var now, data := FindingsOf(report), reader.source.data;
    if readable && first == 0xFF && second == 0xD8 {
      stop := ProcessSignature(reader, pos, region, limits, report, digest);
      ScanStep(before, now, FindingsOf(report), data, digest, region, pos);
    } else {
      stop := false;
      if readable {
        NoSignatureNoHits(data, pos, region.End());
      }
      ScanSkip(before, now, data, digest, region, pos);
    }
  }

  /** Every signature that starts in this chunk and has its second byte there too. */
  method ScanChunk(reader: SourceReader, absolute: nat, chunk: seq<Byte>, badRanges: seq<Range>, region: CarveRegion,
                   limits: Limits, report: CarveReport, digest: seq<Byte> -> seq<Byte>, ghost before: Findings)
    returns (stop: bool)
    requires ValidLimits(limits) && report.Open(limits) && reader.source.Truthful() && report.reader == reader
    requires 0 < |chunk| && region.offset <= absolute
    requires absolute + |chunk| <= region.End() <= |reader.source.data| < U64_LIMIT
    requires Faithful(chunk, badRanges, reader.source.data, absolute) && (badRanges != [] ==> report.isPartial)
    requires ScannedTo(before, FindingsOf(report), reader.source.data, digest, region, absolute)
    modifies report, reader
    ensures report.Consistent(limits) && report.bytesScanned == old(report.bytesScanned)
    ensures !stop ==> report.Open(limits)
    ensures stop || old(report.isPartial) ==> report.isPartial
    ensures stop ==> ScannedTo(before, FindingsOf(report), reader.source.data, digest, region, region.End())
    ensures !stop ==> ScannedTo(before, FindingsOf(report), reader.source.data, digest, region, absolute + |chunk| - 1)
    ensures ReadsAdded(old(reader.log), reader.log, region.offset, region.End())
  {
    hide ScannedTo, ReadsAdded, Source.Truthful, CarveReport.Open, CarveReport.Consistent, FindingsOf, Faithful,
         ValidLimits, CarveRegion.End;
    OpenIsConsistent(report, limits);
    NoReadsYet(reader.log, region.offset, region.End());
    stop := false;
    for index := 0 to |chunk| - 1
      invariant !stop && report.Consistent(limits) && report.Open(limits)
      invariant report.bytesScanned == old(report.bytesScanned)
      invariant old(report.isPartial) ==> report.isPartial
      invariant ScannedTo(before, FindingsOf(report), reader.source.data, digest, region, absolute + index)
      invariant ReadsAdded(old(reader.log), reader.log, region.offset, region.End())
    {
      stop := ScanIndex(reader, absolute, chunk, badRanges, index, region, limits, report, digest, before,
                        old(reader.log));
      if stop {
        return;
      }
    }
  }

  /** One turn of the loop over a chunk. */
  method ScanIndex(reader: SourceReader, absolute: nat, chunk: seq<Byte>, badRanges: seq<Range>, index: nat,
                   region: CarveRegion, limits: Limits, report: CarveReport, digest: seq<Byte> -> seq<Byte>,
                   ghost before: Findings, ghost logBefore: seq<Range>)
    returns (stop: bool)
    requires ValidLimits(limits) && report.Open(limits) && reader.source.Truthful() && report.reader == reader
    requires index + 1 < |chunk| && region.offset <= absolute
    requires absolute + |chunk| <= region.End() <= |reader.source.data| < U64_LIMIT
    requires Faithful(chunk, badRanges, reader.source.data, absolute) && (badRanges != [] ==> report.isPartial)
    requires ScannedTo(before, FindingsOf(report), reader.source.data, digest, region, absolute + index)
    requires ReadsAdded(logBefore, reader.log, region.offset, region.End())
    modifies report, reader
    ensures report.Consistent(limits) && report.bytesScanned == old(report.bytesScanned)
    ensures !stop ==> report.Open(limits)
    ensures stop || old(report.isPartial) ==> report.isPartial
    ensures stop ==> ScannedTo(before, FindingsOf(report), reader.source.data, digest, region, region.End())
    ensures !stop ==> ScannedTo(before, FindingsOf(report), reader.source.data, digest, region, absolute + index + 1)
    ensures ReadsAdded(logBefore, reader.log, region.offset, region.End())
  {
    hide ScannedTo, ReadsAdded, Source.Truthful, CarveReport.Open, CarveReport.Consistent, In, ReadableAt,
         FindingsOf, Faithful;
    ghost var data := reader.source.data;
    ghost var logged := reader.log;
    var readable := PairReadable(chunk, badRanges, index, data, absolute);
    stop := ScanOffset(reader, absolute + index, chunk[index], chunk[index + 1], readable, region, limits, report,
                       digest, before);
    ReadsAddedMore(logBefore, logged, reader.log, region.offset, absolute + index, region.End());
    if stop {
      PartialFinding(report);
      ScanStopped(before, FindingsOf(report), data, digest, region, absolute + index + 1, region.End());
    }
  }

  lemma OpenIsConsistent(report: CarveReport, limits: Limits)
    requires report.Open(limits)
    ensures report.Consistent(limits)
  {
  }

  lemma PartialFinding(report: CarveReport)
    ensures FindingsOf(report).isPartial == report.isPartial
  {
  }

  /** Both bytes of a possible signature were read; then they are the source's own. */
  method PairReadable(chunk: seq<Byte>, badRanges: seq<Range>, index: nat, ghost data: seq<Byte>, ghost absolute: nat)
    returns (readable: bool)
    requires index + 1 < |chunk| && Faithful(chunk, badRanges, data, absolute) && absolute + |chunk| <= |data|
    ensures readable ==> data[absolute + index] == chunk[index] && data[absolute + index + 1] == chunk[index + 1]
    ensures !readable ==> badRanges != []
    ensures readable <==> !In(badRanges, index) && !In(badRanges, index + 1)
  {
    readable := ReadableAt(index, badRanges) && ReadableAt(index + 1, badRanges);
  }

  lemma ReadsAddedMore(a: seq<Range>, b: seq<Range>, c: seq<Range>, lo: nat, mid: nat, hi: nat)
    requires lo <= mid && ReadsAdded(a, b, lo, hi) && ReadsAdded(b, c, mid, hi)
    ensures ReadsAdded(a, c, lo, hi)
  {
    forall k | |a| <= k < |c|
      ensures lo <= c[k].start && c[k].end <= hi
    {
      assert k < |b| ==> c[k] == b[k];
    }
  }

  lemma {:induction false} TotalBound(ranges: seq<Range>, n: nat)
    requires Normal(ranges) && Within(ranges, n)
    ensures 0 <= Total(ranges) <= n
    ensures ranges != [] ==> Total(ranges) > 0
  {
    if ranges != [] {
      var rest, last := ranges[..|ranges| - 1], ranges[|ranges| - 1];
      assert last in ranges;
      assert Within(rest, last.start) by {
        assert forall r :: r in rest ==> exists k :: 0 <= k < |rest| && r == ranges[k];
      }
      TotalBound(rest, last.start);
    }
  }

  /** One scan read: failures are counted out of the coverage and reported. */
  method ReadChunk(reader: SourceReader, absolute: nat, buffer: array<Byte>, n: nat, limits: Limits,
                   report: CarveReport)
    returns (badRanges: seq<Range>)
    requires 0 < n <= buffer.Length && n < U64_LIMIT && reader.source.Truthful() && report.reader == reader
    requires report.Open(limits)
    modifies buffer, reader, report`bytesScanned, report`isPartial, report`reasons
    ensures report.Open(limits)
    ensures Faithful(buffer[..n], badRanges, reader.source.data, absolute)
    ensures report.isPartial <==> old(report.isPartial) || badRanges != []
    ensures old(report.bytesScanned) <= report.bytesScanned <= old(report.bytesScanned) + n
    ensures badRanges == [] <==> report.bytesScanned == old(report.bytesScanned) + n
    ensures reader.log == old(reader.log) + [Range(absolute, absolute + n)]
  {
    hide Coherent;
    var outcome := reader.ReadAt(absolute, buffer, n);
    badRanges := NormalizeBadRanges(n, outcome);
    TotalBound(badRanges, n);
    report.bytesScanned := report.bytesScanned + (n - Total(badRanges));
    report.PushReadIssues(badRanges, limits);
    assert reader.source.TruthfulAt(absolute, n);
    if Trusted(n, outcome) {
      CleanRead(reader.source, absolute, n, badRanges);
      assert forall i :: 0 <= i < n && !In(badRanges, i) ==> buffer[..n][i] == reader.source.RawBytes(absolute, n)[i];
    } else {
      assert badRanges[0] in badRanges && forall i :: 0 <= i < n ==> badRanges[0].Contains(i);
    }
  }

  /** The last byte of the previous chunk, where a signature may straddle the boundary. */
  datatype Tail = Tail(offset: nat, byte: Byte, valid: bool)

  /** Where the scan stands between chunks: every offset before the tail is done. */
  ghost predicate Between(tail: Option<Tail>, pos: nat, before: Findings, now: Findings, data: seq<Byte>,
                          digest: seq<Byte> -> seq<Byte>, region: CarveRegion)
  {
    match tail
    case None => pos == region.offset && ScannedTo(before, now, data, digest, region, pos)
    case Some(t) =>
      && pos == t.offset + 1 && region.offset <= t.offset < |data|
      && (t.valid ==> t.byte == data[t.offset])
      && (!t.valid ==> now.isPartial)
      && ScannedTo(before, now, data, digest, region, t.offset)
  }

  /** Reporting a read failure moves nothing. */
  lemma BetweenStays(tail: Option<Tail>, pos: nat, before: Findings, now: Findings, later: Findings, data: seq<Byte>,
                     digest: seq<Byte> -> seq<Byte>, region: CarveRegion)
    requires Between(tail, pos, before, now, data, digest, region)
    requires later == now || later == now.(isPartial := true)
    ensures Between(tail, pos, before, later, data, digest, region)
  {
    hide FoundIn, CarvedBefore;
  }

  /** The signature check for the byte pair across the chunk boundary. */
  method ScanTail(reader: SourceReader, tail: Option<Tail>, pos: nat, first: Byte, readable: bool,
                  region: CarveRegion, limits: Limits, report: CarveReport, digest: seq<Byte> -> seq<Byte>,
                  ghost before: Findings)
    returns (stop: bool)
    requires ValidLimits(limits) && report.Open(limits) && reader.source.Truthful() && report.reader == reader
    requires region.offset <= pos < region.End() <= |reader.source.data| < U64_LIMIT
    requires Between(tail, pos, before, FindingsOf(report), reader.source.data, digest, region)
    requires readable ==> reader.source.data[pos] == first
    requires !readable ==> report.isPartial
    modifies report, reader
    ensures report.Consistent(limits) && report.bytesScanned == old(report.bytesScanned)
    ensures !stop ==> report.Open(limits)
    ensures stop || old(report.isPartial) ==> report.isPartial
    ensures ScannedTo(before, FindingsOf(report), reader.source.data, digest, region, pos)
    ensures ReadsAdded(old(reader.log), reader.log, region.offset, region.End())
  {
    hide ScannedTo, Source.Truthful, CarveReport.WithinBudgets, CarveReport.Reasoned;
    stop := false;
    if tail.Some? {
      stop := ScanOffset(reader, tail.value.offset, tail.value.byte, first, tail.value.valid && readable, region,
                         limits, report, digest, before);
    }
  }

  /** Scans one region to its end, or to a spent budget. */
  method ScanRegion(reader: SourceReader, region: CarveRegion, limits: Limits, report: CarveReport,
                    digest: seq<Byte> -> seq<Byte>)
    returns (stop: bool)
    requires ValidLimits(limits) && report.Open(limits) && reader.source.Truthful() && report.reader == reader
    requires region.End() <= |reader.source.data| < U64_LIMIT
    modifies report, reader
    ensures report.Consistent(limits)
    ensures stop ==> report.isPartial
    ensures !stop ==> report.Open(limits)
    ensures ScannedTo(old(FindingsOf(report)), FindingsOf(report), reader.source.data, digest, region, region.End())
    ensures old(report.bytesScanned) <= report.bytesScanned <= old(report.bytesScanned) + region.len
    ensures !report.isPartial ==> report.bytesScanned == old(report.bytesScanned) + region.len
    ensures ReadsAdded(old(reader.log), reader.log, region.offset, region.End())
  {
    stop := false;
    ghost var before, data := FindingsOf(report), reader.source.data;
    assert ScannedTo(before, before, data, digest, region, region.offset);
    assert ReadsAdded(reader.log, reader.log, region.offset, region.End());
    hide ScannedTo, Source.Truthful;
    if region.len > 0 {
      stop := ScanChunks(reader, region, limits, report, digest);
    }
  }

  /** The loop of `ScanRegion`, with one buffer for all its reads. */
  method ScanChunks(reader: SourceReader, region: CarveRegion, limits: Limits, report: CarveReport,
                    digest: seq<Byte> -> seq<Byte>)
    returns (stop: bool)
    requires region.len > 0 && ValidLimits(limits) && report.Open(limits) && reader.source.Truthful()
    requires report.reader == reader
    requires region.End() <= |reader.source.data| < U64_LIMIT
    requires ScannedTo(FindingsOf(report), FindingsOf(report), reader.source.data, digest, region, region.offset)
    modifies report, reader
    ensures report.Consistent(limits)
    ensures stop ==> report.isPartial
    ensures !stop ==> report.Open(limits)
    ensures ScannedTo(old(FindingsOf(report)), FindingsOf(report), reader.source.data, digest, region, region.End())
    ensures old(report.bytesScanned) <= report.bytesScanned <= old(report.bytesScanned) + region.len
    ensures !report.isPartial ==> report.bytesScanned == old(report.bytesScanned) + region.len
    ensures ReadsAdded(old(reader.log), reader.log, region.offset, region.End())
  {
    assert report.Consistent(limits) && ReadsAdded(reader.log, reader.log, region.offset, region.End());
    hide ScannedTo, ReadsAdded, Source.Truthful, CarveReport.Open, CarveReport.Consistent, FindingsOf, HitsAt;
    stop := false;
    ghost var before, data := FindingsOf(report), reader.source.data;
    var buffer := new Byte[Min(limits.chunkSize, region.len)];
    var relative := 0;
    var tail: Option<Tail> := None;
    while relative < region.len
      invariant relative <= region.len && !stop && report.Open(limits) && report.Consistent(limits)
      invariant relative > 0 ==> tail.Some?
      invariant Between(tail, region.offset + relative, before, FindingsOf(report), data, digest, region)
      invariant old(report.bytesScanned) <= report.bytesScanned <= old(report.bytesScanned) + relative
      invariant !report.isPartial ==> report.bytesScanned == old(report.bytesScanned) + relative
      invariant ReadsAdded(old(reader.log), reader.log, region.offset, region.End())
    {
      hide Between;
      var readLen := Min(limits.chunkSize, region.len - relative);
      ghost var logged := reader.log;
      tail, stop :=
        ScanNext(reader, tail, region.offset + relative, buffer, readLen, region, limits, report, digest, before);
      ReadsAddedMore(old(reader.log), logged, reader.log, region.offset, region.offset, region.End());
      if stop {
        return;
      }
      relative := relative + readLen;
    }
    FinishRegion(tail, before, FindingsOf(report), data, digest, region);
  }

  /** The last byte of a region starts no image inside it. */
  lemma FinishRegion(tail: Option<Tail>, before: Findings, now: Findings, data: seq<Byte>,
                     digest: seq<Byte> -> seq<Byte>, region: CarveRegion)
    requires region.End() <= |data| && tail.Some? && Between(tail, region.End(), before, now, data, digest, region)
    ensures ScannedTo(before, now, data, digest, region, region.End())
  {
    hide ScannedTo, HitsAt;
    NoSignatureNoHits(data, tail.value.offset, region.End());
    ScanSkip(before, now, data, digest, region, tail.value.offset);
  }

  /** One turn of the region loop: read, finish the previous boundary, scan, remember the new boundary. */
  method ScanNext(reader: SourceReader, tail: Option<Tail>, absolute: nat, buffer: array<Byte>, n: nat,
                  region: CarveRegion, limits: Limits, report: CarveReport, digest: seq<Byte> -> seq<Byte>,
                  ghost before: Findings)
    returns (next: Option<Tail>, stop: bool)
    requires 0 < n <= buffer.Length && ValidLimits(limits) && report.Open(limits) && reader.source.Truthful()
    requires report.reader == reader
    requires region.offset <= absolute && absolute + n <= region.End() <= |reader.source.data| < U64_LIMIT
    requires Between(tail, absolute, before, FindingsOf(report), reader.source.data, digest, region)
    modifies buffer, report, reader
    ensures report.Consistent(limits)
    ensures stop || old(report.isPartial) ==> report.isPartial
    ensures old(report.bytesScanned) <= report.bytesScanned <= old(report.bytesScanned) + n
    ensures !report.isPartial ==> report.bytesScanned == old(report.bytesScanned) + n
    ensures !stop ==>
      report.Open(limits) && next.Some? &&
        Between(next, absolute + n, before, FindingsOf(report), reader.source.data, digest, region)
    ensures stop ==> ScannedTo(before, FindingsOf(report), reader.source.data, digest, region, region.End())
    ensures ReadsAdded(old(reader.log), reader.log, region.offset, region.End())
  {
    hide ScannedTo, Source.Truthful, CarveReport.Open, CarveReport.Consistent;
    ghost var data, log0 := reader.source.data, reader.log;
    var badRanges := ReadChunk(reader, absolute, buffer, n, limits, report);
    BetweenStays(tail, absolute, before, old(FindingsOf(report)), FindingsOf(report), data, digest, region);
    ghost var log1 := reader.log;
    assert ReadsAdded(log0, log1, region.offset, region.End());
    var chunk := buffer[..n];
    stop := ScanTail(reader, tail, absolute, chunk[0], ReadableAt(0, badRanges), region, limits, report, digest,
                     before);
    ghost var log2 := reader.log;
    ReadsAddedMore(log0, log1, log2, region.offset, region.offset, region.End());
    if stop {
      ScanStopped(before, FindingsOf(report), data, digest, region, absolute, region.End());
      return None, true;
    }
    stop := ScanChunk(reader, absolute, chunk, badRanges, region, limits, report, digest, before);
    ReadsAddedMore(log0, log2, reader.log, region.offset, region.offset, region.End());
    next := Some(Tail(absolute + n - 1, chunk[n - 1], ReadableAt(n - 1, badRanges)));
  }
}
