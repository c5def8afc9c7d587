/** The whole-buffer extractor (crates/core/src/extract.rs) and its agreement with planning and streaming. */
module Extraction {
  import opened Common
  import opened Intervals
  import opened Candidates
  import opened Sources
  import opened Plan
  import opened ZeroRanges
  import opened Streaming
  import opened Transfers

  /** Whether this extent writes file byte `b` into the buffer. */
  predicate Writes(extent: ExtentRun, b: int) {
    extent.Covers(b) && !extent.availability.Sparse? && extent.physical.Some?
  }

  /** The last extent that writes a byte decides it. */
  function ExtractedByte(extents: seq<ExtentRun>, source: Source, b: nat): Byte {
    if extents == [] then 0
    else
      var last := extents[|extents| - 1];
      if Writes(last, b) then source.RawAt(last.physical.value + (b - last.logical))
      else ExtractedByte(extents[..|extents| - 1], source, b)
  }

  /** Whether the extent accounts for byte `b`: sparse, or read without the reader naming it as failed. */
  ghost predicate Accounts(extent: ExtentRun, source: Source, size: nat, b: int) {
    && extent.Covers(b) && b < size
    && (extent.availability.Sparse?
        || (extent.physical.Some?
            && !Reported(source.report(extent.physical.value, Min(extent.End(), size) - extent.logical).badRanges,
                         b - extent.logical)))
  }

  ghost predicate Accounted(extents: seq<ExtentRun>, source: Source, size: nat, b: int) {
    exists e :: e in extents && Accounts(e, source, size, b)
  }

  lemma AccountedSnoc(extents: seq<ExtentRun>, next: ExtentRun, source: Source, size: nat)
    ensures forall b: int :: Accounted(extents + [next], source, size, b) <==>
      Accounted(extents, source, size, b) || Accounts(next, source, size, b)
  {
  }

  /** Marks the positions of `covered[lo..lo + n]` the reader did not name as failed. */
  method MarkReadable(covered: array<bool>, lo: nat, n: nat, outcome: ReadOutcome)
    requires lo + n <= covered.Length && n < U64_LIMIT
    modifies covered
    ensures forall i :: 0 <= i < covered.Length ==>
      covered[i] == (old(covered[i]) || (lo <= i < lo + n && !Reported(outcome.badRanges, i - lo)))
  {
    var bad := new bool[n](_ => false);
    for k := 0 to |outcome.badRanges|
      invariant forall i :: 0 <= i < n ==> bad[i] == Reported(outcome.badRanges[..k], i)
      invariant forall i :: 0 <= i < covered.Length ==> covered[i] == old(covered[i])
    {
      var range := outcome.badRanges[k];
      assert outcome.badRanges[..k + 1] == outcome.badRanges[..k] + [range];
      ReportedSnoc(outcome.badRanges[..k], range);
      var s, e := Min(range.offset, n), Min(Min(range.offset + range.len, U64_LIMIT - 1), n);
      SetTrue(bad, s, Max(s, e));
    }
    assert outcome.badRanges[..|outcome.badRanges|] == outcome.badRanges;
    for i := 0 to n
      invariant forall j :: 0 <= j < n ==> bad[j] == Reported(outcome.badRanges, j)
      invariant forall j :: 0 <= j < covered.Length ==>
        covered[j] == (old(covered[j]) || (lo <= j < lo + i && !Reported(outcome.badRanges, j - lo)))
    {
      assert bad[i] == Reported(outcome.badRanges, (lo + i) - lo);
      if !bad[i] {
        covered[lo + i] := true;
      }
    }
  }

  method SetTrue(flags: array<bool>, s: nat, e: nat)
    requires s <= e <= flags.Length
    modifies flags
    ensures forall i :: 0 <= i < flags.Length ==> flags[i] == (old(flags[i]) || s <= i < e)
  {
    forall i | s <= i < e {
      flags[i] := true;
    }
  }

  datatype Extracted = Extracted(bytes: seq<Byte>, missing: seq<Range>)

  /** What `ExtractCandidate` returns. */
  ghost predicate ExtractionOf(extracted: Extracted, candidate: Candidate, source: Source) {
    && |extracted.bytes| == candidate.size
    && (forall b :: 0 <= b < candidate.size ==> extracted.bytes[b] == ExtractedByte(candidate.extents, source, b))
    && (forall b: int :: In(extracted.missing, b) <==>
          0 <= b < candidate.size && !Accounted(candidate.extents, source, candidate.size, b))
  }

  /** `extract_candidate`: every extent copied into one buffer, then the maximal runs of unaccounted bytes. */
  method ExtractCandidate(source: Source, candidate: Candidate) returns (r: Extracted)
    requires candidate.size < U64_LIMIT
    ensures ExtractionOf(r, candidate, source) && Normal(r.missing)
  {
    var size, extents := candidate.size, candidate.extents;
    var bytes := new Byte[size](_ => 0);
    var covered := new bool[size](_ => false);
    for k := 0 to |extents|
      invariant forall b :: 0 <= b < size ==> bytes[b] == ExtractedByte(extents[..k], source, b)
      invariant forall b :: 0 <= b < size ==> covered[b] == Accounted(extents[..k], source, size, b)
    {
      assert extents[..k + 1] == extents[..k] + [extents[k]] && extents[..k + 1][..k] == extents[..k];
      AccountedSnoc(extents[..k], extents[k], source, size);
      CopyExtent(source, extents[k], bytes, covered);
    }
    assert extents[..|extents|] == extents;
    var missing := CollectUncovered(covered);
    r := Extracted(bytes[..], missing);
  }

  /** One extent, clipped to the buffer. */
  method CopyExtent(source: Source, extent: ExtentRun, bytes: array<Byte>, covered: array<bool>)
    requires bytes.Length == covered.Length < U64_LIMIT
    modifies bytes, covered
    ensures forall b :: 0 <= b < bytes.Length ==>
      bytes[b]
        == if Writes(extent, b) then source.RawAt(extent.physical.value + (b - extent.logical)) else old(bytes[b])
    ensures forall b :: 0 <= b < bytes.Length ==>
      covered[b] == (old(covered[b]) || Accounts(extent, source, bytes.Length, b))
  {
    var size := bytes.Length;
    var lo := Min(extent.logical, size);
    var hi := Min(Min(extent.logical + extent.len, U64_LIMIT - 1), size);
    if lo >= hi {
      return;
    }
    assert forall b :: 0 <= b < size ==> (extent.Covers(b) <==> lo <= b < hi);
    if extent.availability.Sparse? {
      SetTrue(covered, lo, hi);
    } else if extent.physical.Some? {
      var phys := extent.physical.value;
      var outcome := ReadInto(source, phys, bytes, lo, hi - lo);
      MarkReadable(covered, lo, hi - lo, outcome);
    }
  }

  /** The reader's call, seen byte by byte. */
  method ReadInto(source: Source, p: nat, bytes: array<Byte>, lo: nat, n: nat) returns (outcome: ReadOutcome)
    requires lo + n <= bytes.Length
    modifies bytes
    ensures outcome == source.report(p, n)
    ensures forall b :: 0 <= b < bytes.Length ==>
      bytes[b] == if lo <= b < lo + n then source.RawAt(p + (b - lo)) else old(bytes[b])
  {
    outcome := ReadBestEffort(source, p, bytes, lo, n);
    assert forall b :: lo <= b < lo + n ==> bytes[b] == bytes[lo..lo + n][b - lo];
    assert forall b :: 0 <= b < lo ==> bytes[b] == bytes[..lo][b];
    assert forall b :: lo + n <= b < bytes.Length ==> bytes[b] == bytes[lo + n..][b - (lo + n)];
  }

  /** The gap scan at the end of the extractor. */
  method CollectUncovered(covered: array<bool>) returns (missing: seq<Range>)
    ensures Normal(missing)
    ensures forall b: int :: In(missing, b) <==> 0 <= b < covered.Length && !covered[b]
  {
    missing := [];
    var i := 0;
    while i < covered.Length
      invariant 0 <= i <= covered.Length && Normal(missing)
      invariant missing != [] ==>
        missing[|missing| - 1].end < i || (missing[|missing| - 1].end == i && (i < covered.Length ==> covered[i]))
      invariant forall b: int :: In(missing, b) <==> 0 <= b < i && !covered[b]
    {
      if !covered[i] {
        var start := i;
        while i < covered.Length && !covered[i]
          invariant start <= i <= covered.Length && forall b :: start <= b < i ==> !covered[b]
        {
          i := i + 1;
        }
        InSnoc(missing, Range(start, i));
        missing := missing + [Range(start, i)];
      } else {
        i := i + 1;
      }
    }
  }

  // ---------- The streaming form refines the whole-buffer form ----------

  /**
   * The classes on which the two forms agree: the extractor reads every other mapped extent, the planner none of
   * them.
   */
  ghost predicate FreeResidentOrSparse(extents: seq<ExtentRun>) {
    forall e :: e in extents ==> e.availability.FreeInSnapshot? || e.availability.Resident? || e.availability.Sparse?
  }

  /** Reports inside the source are well formed and name exactly the unreadable positions. */
  ghost predicate ReportsExactly(source: Source) {
    forall p: nat, n: nat, i: nat :: p + n <= |source.data| && i < n ==>
      (Reported(source.report(p, n).badRanges, i) <==> !source.Readable(p + i))
  }

  lemma {:induction false} OnlyWriter(extents: seq<ExtentRun>, source: Source, b: nat, e: ExtentRun)
    requires forall f :: f in extents && f.Covers(b) ==> f == e
    ensures ExtractedByte(extents, source, b) ==
      if e in extents && Writes(e, b) then source.RawAt(e.physical.value + (b - e.logical)) else 0
  {
    if extents != [] {
      var rest, last := extents[..|extents| - 1], extents[|extents| - 1];
      assert extents == rest + [last];
      assert last in extents;
      OnlyWriter(rest, source, b, e);
    }
  }

  /**
   * Byte by byte: same value unless the reader left something else behind, and unaccounted exactly when zero-filled
   * for a reason other than sparseness.
   */
  lemma SameByte(candidate: Candidate, plan: ContentPlan, source: Source, b: nat)
    requires PlanOf(plan, candidate, |source.data|) && Plannable(candidate, |source.data|)
    requires FreeResidentOrSparse(candidate.extents) && ReportsExactly(source) && b < candidate.size
    ensures source.ZeroFilling() || Accounted(candidate.extents, source, candidate.size, b) ==>
        ContentByte(PlanMeaning(plan.segments, b), source) == ExtractedByte(candidate.extents, source, b)
    ensures var reason := ZeroReasonOf(PlanMeaning(plan.segments, b), source);
      !Accounted(candidate.extents, source, candidate.size, b) <==> reason.Some? && reason.value != SparseZero
  {
    hide PlanMeaning, ExtractedByte, Accounted, ContentByte, ZeroReasonOf;
    var extents := candidate.extents;
    assert Explained(plan.segments, extents, b);
    if e :| e in extents && e.Covers(b) {
      assert FitsLogically(e, candidate.size) && FitsPhysically(e, |source.data|);
      CoveredByte(extents, source, candidate.size, b, e);
    } else {
      UncoveredByte(extents, source, candidate.size, b);
    }
  }

  /** A byte of the one extent that covers it. */
  lemma CoveredByte(extents: seq<ExtentRun>, source: Source, size: nat, b: nat, e: ExtentRun)
    requires e in extents && e.Covers(b) && b < size && forall f :: f in extents && f.Covers(b) ==> f == e
    requires FitsLogically(e, size) && FitsPhysically(e, |source.data|) && FreeResidentOrSparse([e])
    requires ReportsExactly(source)
    ensures source.ZeroFilling() || Accounted(extents, source, size, b) ==>
        ContentByte(ExtentMeaning(e, b), source) == ExtractedByte(extents, source, b)
    ensures var reason := ZeroReasonOf(ExtentMeaning(e, b), source);
      !Accounted(extents, source, size, b) <==> reason.Some? && reason.value != SparseZero
  {
    hide ExtractedByte, Accounted;
    assert e in [e];
    OnlyWriter(extents, source, b, e);
    OnlyAccount(extents, source, size, b, e);
  }

  /** A byte no extent covers: zero in both forms, and missing. */
  lemma UncoveredByte(extents: seq<ExtentRun>, source: Source, size: nat, b: nat)
    requires forall f :: f in extents ==> !f.Covers(b)
    ensures ContentByte(Zero(MissingExtent), source) == ExtractedByte(extents, source, b) == 0
    ensures !Accounted(extents, source, size, b)
    ensures ZeroReasonOf(Zero(MissingExtent), source) == Some(MissingExtent)
  {
    hide ExtractedByte, Accounted;
    OnlyWriter(extents, source, b, ExtentRun(0, None, 0, Unknown));
    NoAccount(extents, source, size, b);
  }

  lemma OnlyAccount(extents: seq<ExtentRun>, source: Source, size: nat, b: nat, e: ExtentRun)
    requires e in extents && e.Covers(b) && forall f :: f in extents && f.Covers(b) ==> f == e
    ensures Accounted(extents, source, size, b) <==> Accounts(e, source, size, b)
  {
    if f :| f in extents && Accounts(f, source, size, b) {
      assert f.Covers(b);
    }
  }

  lemma NoAccount(extents: seq<ExtentRun>, source: Source, size: nat, b: nat)
    requires forall f :: f in extents ==> !f.Covers(b)
    ensures !Accounted(extents, source, size, b)
  {
  }

  /**
   * For every plannable candidate made of free, resident and sparse extents, the stream's non-sparse zero-filled
   * bytes are exactly the extractor's missing ranges. All other bytes agree; with a zero-filling reader, every byte
   * does.
   */
  lemma StreamRefinesExtract(candidate: Candidate, plan: ContentPlan, source: Source, outcome: StreamOutcome,
                             sha: seq<Byte> -> seq<Byte>, extracted: Extracted)
    requires PlanOf(plan, candidate, |source.data|) && Plannable(candidate, |source.data|)
    requires FreeResidentOrSparse(candidate.extents) && ReportsExactly(source)
    requires OutcomeOf(outcome, plan, source, sha) && ExtractionOf(extracted, candidate, source)
    ensures forall b :: 0 <= b < candidate.size && !In(extracted.missing, b) ==>
        Content(plan.segments, source, plan.logicalSize)[b] == extracted.bytes[b]
    ensures source.ZeroFilling() ==>
        Content(plan.segments, source, plan.logicalSize) == extracted.bytes && outcome.sha256 == sha(extracted.bytes)
    ensures forall b: int :: In(extracted.missing, b) <==>
      exists reason :: reason != SparseZero && ZeroAt(outcome.zeros, b, reason)
  {
    forall b | 0 <= b < candidate.size
      ensures source.ZeroFilling() || !In(extracted.missing, b) ==>
          Content(plan.segments, source, plan.logicalSize)[b] == extracted.bytes[b]
    {
      SameByte(candidate, plan, source, b);
    }
    if source.ZeroFilling() {
      assert Content(plan.segments, source, plan.logicalSize) == extracted.bytes;
    }
    forall b: int
      ensures In(extracted.missing, b) <==> exists reason :: reason != SparseZero && ZeroAt(outcome.zeros, b, reason)
    {
      if 0 <= b < candidate.size {
        SameByte(candidate, plan, source, b);
        var reason := ZeroReasonOf(PlanMeaning(plan.segments, b), source);
        if reason.Some? {
          assert ZeroAt(outcome.zeros, b, reason.value);
        }
      }
    }
  }
}
