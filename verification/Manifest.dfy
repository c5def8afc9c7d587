/** Range maps derived from a completed stream (crates/restore/src/manifest.rs). */
module Manifest {
  import opened Common
  import opened Candidates
  import opened Intervals
  import opened ZeroRanges
  import opened Transfers
  import opened Sources
  import opened Plan
  import opened Streaming

  ghost predicate InZeros(ranges: seq<ZeroRange>, b: int) {
    exists z :: z in ranges && z.Covers(b)
  }

  ghost predicate ZerosWithin(ranges: seq<ZeroRange>, size: nat) {
    forall z :: z in ranges ==> z.End() <= size
  }

  /** The gaps before the first `k` zero ranges. */
  ghost predicate GapsUpTo(readable: seq<Range>, zeros: seq<ZeroRange>, k: nat, cursor: int)
    requires k <= |zeros|
  {
    && cursor == (if k == 0 then 0 else zeros[k - 1].End())
    && Normal(readable) && (readable != [] ==> readable[|readable| - 1].end < cursor)
    && (forall b: int :: In(readable, b) <==> 0 <= b < cursor && !InZeros(zeros[..k], b))
  }

  lemma GapStep(readable: seq<Range>, zeros: seq<ZeroRange>, k: nat, cursor: nat)
    requires Maximal(zeros) && k < |zeros| && GapsUpTo(readable, zeros, k, cursor)
    ensures zeros[k] in zeros && zeros[k].logical >= cursor
    ensures GapsUpTo(if cursor < zeros[k].logical then readable + [Range(cursor, zeros[k].logical)] else readable,
                     zeros, k + 1, zeros[k].End())
  {
    ZerosPrefix(zeros, k);
    hide Maximal, InZeros, In;
    var next := zeros[k];
    var grown := if cursor < next.logical then readable + [Range(cursor, next.logical)] else readable;
    InSnoc(readable, Range(cursor, next.logical));
    assert Normal(grown);
    assert grown != [] ==> grown[|grown| - 1].end < next.End();
    forall b: int
      ensures In(grown, b) <==> 0 <= b < next.End() && !InZeros(zeros[..k + 1], b)
    {
      assert In(grown, b) <==> In(readable, b) || cursor <= b < next.logical;
      assert In(readable, b) <==> 0 <= b < cursor && !InZeros(zeros[..k], b);
      assert InZeros(zeros[..k], b) ==> b < cursor;
      assert InZeros(zeros[..k + 1], b) <==> InZeros(zeros[..k], b) || next.logical <= b < next.End();
    }
  }

  lemma ZerosPrefix(zeros: seq<ZeroRange>, k: nat)
    requires Maximal(zeros) && k < |zeros|
    ensures zeros[k] in zeros && zeros[k].len > 0 && zeros[k].logical >= if k == 0 then 0 else zeros[k - 1].End()
    ensures forall b: int :: InZeros(zeros[..k + 1], b) <==> InZeros(zeros[..k], b) || zeros[k].Covers(b)
    ensures forall b: int :: InZeros(zeros[..k], b) ==> 0 <= b < if k == 0 then 0 else zeros[k - 1].End()
  {
    assert zeros[..k + 1] == zeros[..k] + [zeros[k]];
  }

  /** The readable ranges are the maximal runs of the bytes no zero-filled range covers. */
  ghost predicate Complement(readable: seq<Range>, zeros: seq<ZeroRange>, size: nat) {
    && Normal(readable) && Within(readable, size)
    && (forall b: int :: In(readable, b) <==> 0 <= b < size && !InZeros(zeros, b))
  }

  lemma GapEnd(readable: seq<Range>, zeros: seq<ZeroRange>, cursor: nat, size: nat)
    requires GapsUpTo(readable, zeros, |zeros|, cursor) && cursor <= size && Maximal(zeros)
    ensures Complement(if cursor < size then readable + [Range(cursor, size)] else readable, zeros, size)
  {
    ZerosBelow(zeros, cursor);
    EndsWithin(readable, cursor);
    InSnoc(readable, Range(cursor, size));
    hide Maximal, InZeros, In;
    assert zeros[..|zeros|] == zeros;
  }

  lemma ZerosBelow(zeros: seq<ZeroRange>, cursor: nat)
    requires Maximal(zeros) && cursor == if zeros == [] then 0 else zeros[|zeros| - 1].End()
    ensures forall b: int :: InZeros(zeros, b) ==> b < cursor
  {
    assert zeros[..|zeros|] == zeros;
    if zeros != [] {
      ZerosPrefix(zeros, |zeros| - 1);
    }
  }

  lemma EndsWithin(readable: seq<Range>, cursor: nat)
    requires Normal(readable) && (readable != [] ==> readable[|readable| - 1].end < cursor)
    ensures Within(readable, cursor) && forall k :: 0 <= k < |readable| ==> readable[k].end < cursor
  {
  }

  /** `readable_ranges`: the gaps between zero-filled ranges, clamped to the file. */
  method ReadableRanges(logicalSize: U64, zeros: seq<ZeroRange>) returns (readable: seq<Range>)
    ensures Maximal(zeros) && ZerosWithin(zeros, logicalSize) ==> Complement(readable, zeros, logicalSize)
  {
    readable := [];
    var cursor: nat := 0;
    ghost var sound := Maximal(zeros) && ZerosWithin(zeros, logicalSize);
    assert sound ==> GapsUpTo([], zeros, 0, 0);
    hide GapsUpTo, Maximal, Complement;
    for k := 0 to |zeros|
      invariant sound ==> GapsUpTo(readable, zeros, k, cursor) && cursor <= logicalSize
    {
      var range := zeros[k];
      if sound {
        GapStep(readable, zeros, k, cursor);
      }
      if cursor < range.logical {
        readable := readable + [Range(cursor, range.logical)];
      }
      cursor := Min(if range.End() >= U64_LIMIT then logicalSize else range.End(), logicalSize);
    }
    if sound {
      GapEnd(readable, zeros, cursor, logicalSize);
    }
    if cursor < logicalSize {
      readable := readable + [Range(cursor, logicalSize)];
    }
  }

  function FilteredRanges(ranges: seq<ZeroRange>, reason: ZeroReason): (filtered: seq<ZeroRange>)
    ensures forall z :: z in filtered <==> z in ranges && z.reason == reason
  {
    if ranges == [] then []
    else (if ranges[0].reason == reason then [ranges[0]] else []) + FilteredRanges(ranges[1..], reason)
  }

  /** The sidecar's `zero_filled_missing_ranges`: everything but conflicts and read errors. */
  function OtherRanges(ranges: seq<ZeroRange>): (filtered: seq<ZeroRange>)
    ensures forall z :: z in filtered <==> z in ranges && z.reason != AllocatedZero && z.reason != PreviouslyReadFailed
  {
    if ranges == [] then []
    else
      (if ranges[0].reason != AllocatedZero && ranges[0].reason != PreviouslyReadFailed then [ranges[0]] else [])
      + OtherRanges(ranges[1..])
  }

  datatype Sidecar = Sidecar(
    candidateId: nat, readable: seq<Range>, zeroFilled: seq<ZeroRange>, missing: seq<ZeroRange>,
    conflicts: seq<ZeroRange>, readErrors: seq<ZeroRange>, outputSha256: seq<Byte>)

  /**
   * Exactly one of the three reason lists holds each zero-filled byte, and the readable ranges hold every other one.
   */
  ghost predicate SidecarAccounts(sidecar: Sidecar, size: nat, b: int) {
    var m, c, e := InZeros(sidecar.missing, b), InZeros(sidecar.conflicts, b), InZeros(sidecar.readErrors, b);
    && (0 <= b < size <==> In(sidecar.readable, b) || m || c || e)
    && !(In(sidecar.readable, b) && (m || c || e)) && !(m && c) && !(m && e) && !(c && e)
  }

  /** The sidecar of an outcome, if it has one, lists its zero ranges by reason and the gaps between them. */
  ghost predicate SidecarOf(sidecar: Option<Sidecar>, candidateId: nat, logicalSize: nat, outcome: StreamOutcome) {
    && (sidecar.Some? <==> outcome.requiresBestEffort)
    && (sidecar.Some? ==>
          var built := sidecar.value;
          && built.candidateId == candidateId && built.zeroFilled == outcome.zeros
          && built.outputSha256 == outcome.sha256
          && built.missing == OtherRanges(outcome.zeros)
          && built.conflicts == FilteredRanges(outcome.zeros, AllocatedZero)
          && built.readErrors == FilteredRanges(outcome.zeros, PreviouslyReadFailed)
          && (Maximal(outcome.zeros) && ZerosWithin(outcome.zeros, logicalSize) ==>
                Complement(built.readable, outcome.zeros, logicalSize)))
  }

  /** `build_partial_sidecar`, up to its JSON rendering. */
  method BuildPartialSidecar(candidateId: nat, logicalSize: U64, outcome: StreamOutcome)
    returns (sidecar: Option<Sidecar>)
    ensures SidecarOf(sidecar, candidateId, logicalSize, outcome)
  {
    if !outcome.requiresBestEffort {
      return None;
    }
    var readable := ReadableRanges(logicalSize, outcome.zeros);
    return Some(Sidecar(
      candidateId, readable, outcome.zeros, OtherRanges(outcome.zeros), FilteredRanges(outcome.zeros, AllocatedZero),
      FilteredRanges(outcome.zeros, PreviouslyReadFailed), outcome.sha256));
  }

  /** For any well-formed zero map the lists of a sidecar partition the file. */
  lemma SidecarPartitions(sidecar: Sidecar, candidateId: nat, size: nat, outcome: StreamOutcome)
    requires SidecarOf(Some(sidecar), candidateId, size, outcome)
    requires Maximal(outcome.zeros) && ZerosWithin(outcome.zeros, size)
    ensures forall b: int :: SidecarAccounts(sidecar, size, b)
  {
    hide Maximal, FilteredRanges, OtherRanges, InZeros, In;
    forall b: int
      ensures SidecarAccounts(sidecar, size, b)
    {
      OneList(outcome.zeros, sidecar, b);
      ZerosInside(outcome.zeros, size, b);
    }
  }

  lemma ZerosInside(zeros: seq<ZeroRange>, size: nat, b: int)
    requires ZerosWithin(zeros, size)
    ensures InZeros(zeros, b) ==> 0 <= b < size
  {
  }

  lemma OneList(zeros: seq<ZeroRange>, sidecar: Sidecar, b: int)
    requires Maximal(zeros) && sidecar.missing == OtherRanges(zeros)
    requires sidecar.conflicts == FilteredRanges(zeros, AllocatedZero)
    requires sidecar.readErrors == FilteredRanges(zeros, PreviouslyReadFailed)
    ensures InZeros(zeros, b) <==>
      InZeros(sidecar.missing, b) || InZeros(sidecar.conflicts, b) || InZeros(sidecar.readErrors, b)
    ensures !(InZeros(sidecar.missing, b) && InZeros(sidecar.conflicts, b))
    ensures !(InZeros(sidecar.missing, b) && InZeros(sidecar.readErrors, b))
    ensures !(InZeros(sidecar.conflicts, b) && InZeros(sidecar.readErrors, b))
  {
    OneOwner(zeros, b);
    hide Maximal, FilteredRanges, OtherRanges;
    if z :| z in zeros && z.Covers(b) {
      assert z in sidecar.missing || z in sidecar.conflicts || z in sidecar.readErrors;
    }
  }

  lemma OneOwner(zeros: seq<ZeroRange>, b: int)
    requires Maximal(zeros)
    ensures forall y, z :: y in zeros && z in zeros && y.Covers(b) && z.Covers(b) ==> y == z
  {
    forall y, z | y in zeros && z in zeros && y.Covers(b) && z.Covers(b)
      ensures y == z
    {
      var j, k :| 0 <= j < |zeros| && 0 <= k < |zeros| && zeros[j] == y && zeros[k] == z;
    }
  }

  // ---------- Completed streams ----------

  /** The zero map of a completed stream is well formed. */
  lemma OutcomeZerosFit(outcome: StreamOutcome, plan: ContentPlan, source: Source, sha: seq<Byte> -> seq<Byte>)
    requires OutcomeOf(outcome, plan, source, sha)
    ensures Maximal(outcome.zeros) && ZerosWithin(outcome.zeros, plan.logicalSize)
  {
    forall z | z in outcome.zeros
      ensures z.End() <= plan.logicalSize
    {
      var k :| 0 <= k < |outcome.zeros| && outcome.zeros[k] == z;
      var last := outcome.zeros[|outcome.zeros| - 1];
      assert k < |outcome.zeros| - 1 ==> z.End() <= last.logical;
    }
  }

  /** And it is the only one: whatever the chunking and the writer, two completed streams of one plan agree on it. */
  lemma OutcomesAgree(a: StreamOutcome, b: StreamOutcome, plan: ContentPlan, source: Source,
                      sha: seq<Byte> -> seq<Byte>)
    requires OutcomeOf(a, plan, source, sha) && OutcomeOf(b, plan, source, sha)
    ensures a == b
  {
    hide Content, PlanMeaning, ZeroReasonOf;
    MaximalUnique(a.zeros, b.zeros);
  }

  /** Why the plan zero-fills a byte, if it does. */
  ghost function ReasonAt(plan: ContentPlan, source: Source, b: int): Option<ZeroReason> {
    ZeroReasonOf(PlanMeaning(plan.segments, b), source)
  }

  ghost predicate LosesBytes(plan: ContentPlan, source: Source) {
    exists b: int :: 0 <= b < plan.logicalSize && NonSparseReason(ReasonAt(plan, source, b))
  }

  predicate NonSparseReason(reason: Option<ZeroReason>) {
    reason.Some? && reason.value != SparseZero
  }

  /** Each byte of the file is in the list that its reason names, or readable, and nowhere else. */
  ghost predicate ListedByReason(sidecar: Sidecar, plan: ContentPlan, source: Source, b: int) {
    var reason := if 0 <= b < plan.logicalSize then ReasonAt(plan, source, b) else None;
    && (In(sidecar.readable, b) <==> 0 <= b < plan.logicalSize && reason.None?)
    && (InZeros(sidecar.conflicts, b) <==> reason == Some(AllocatedZero))
    && (InZeros(sidecar.readErrors, b) <==> reason == Some(PreviouslyReadFailed))
    && (InZeros(sidecar.missing, b) <==>
          reason.Some? && reason.value != AllocatedZero && reason.value != PreviouslyReadFailed)
  }

  lemma NonSparseIffLoses(outcome: StreamOutcome, plan: ContentPlan, source: Source, sha: seq<Byte> -> seq<Byte>)
    requires OutcomeOf(outcome, plan, source, sha)
    ensures NonSparse(outcome.zeros) <==> LosesBytes(plan, source)
  {
    hide PlanMeaning, ZeroReasonOf, Content;
    if NonSparse(outcome.zeros) {
      var z :| z in outcome.zeros && z.reason != SparseZero;
      assert z.Covers(z.logical);
      assert ZeroAt(outcome.zeros, z.logical, z.reason);
      assert NonSparseReason(ReasonAt(plan, source, z.logical));
    }
    if LosesBytes(plan, source) {
      var b: int :| 0 <= b < plan.logicalSize && NonSparseReason(ReasonAt(plan, source, b));
      assert ZeroAt(outcome.zeros, b, ReasonAt(plan, source, b).value);
    }
  }

  /**
   * A completed stream has a sidecar exactly when some byte was lost, that is, zero-filled for a reason other than
   * sparseness; and then the sidecar's lists partition the file by what the plan means at each byte.
   */
  lemma StreamSidecar(sidecar: Option<Sidecar>, candidateId: nat, outcome: StreamOutcome, plan: ContentPlan,
                      source: Source, sha: seq<Byte> -> seq<Byte>)
    requires OutcomeOf(outcome, plan, source, sha) && SidecarOf(sidecar, candidateId, plan.logicalSize, outcome)
    ensures sidecar.Some? <==> LosesBytes(plan, source)
    ensures sidecar.Some? ==>
      Normal(sidecar.value.readable) && forall b: int :: ListedByReason(sidecar.value, plan, source, b)
  {
    hide Maximal, NonSparse, LosesBytes, Content, PlanMeaning, InZeros, ZeroAt, FilteredRanges, OtherRanges, In, Normal;
    NonSparseIffLoses(outcome, plan, source, sha);
    OutcomeZerosFit(outcome, plan, source, sha);
    if sidecar.Some? {
      forall b: int
        ensures ListedByReason(sidecar.value, plan, source, b)
      {
        ListsByReason(sidecar.value, outcome.zeros, b);
        ReasonOfZero(outcome, plan, source, sha, b);
      }
    }
  }

  lemma ListsByReason(sidecar: Sidecar, zeros: seq<ZeroRange>, b: int)
    requires sidecar.missing == OtherRanges(zeros) && sidecar.conflicts == FilteredRanges(zeros, AllocatedZero)
    requires sidecar.readErrors == FilteredRanges(zeros, PreviouslyReadFailed)
    ensures InZeros(zeros, b) <==> exists reason :: ZeroAt(zeros, b, reason)
    ensures InZeros(sidecar.conflicts, b) <==> ZeroAt(zeros, b, AllocatedZero)
    ensures InZeros(sidecar.readErrors, b) <==> ZeroAt(zeros, b, PreviouslyReadFailed)
    ensures InZeros(sidecar.missing, b) <==>
        exists reason :: reason != AllocatedZero && reason != PreviouslyReadFailed && ZeroAt(zeros, b, reason)
  {
    if z :| z in zeros && z.Covers(b) {
      assert ZeroAt(zeros, b, z.reason);
    }
    if z :| z in sidecar.missing && z.Covers(b) {
      assert ZeroAt(zeros, b, z.reason);
    }
  }

  lemma ReasonOfZero(outcome: StreamOutcome, plan: ContentPlan, source: Source, sha: seq<Byte> -> seq<Byte>, b: int)
    requires OutcomeOf(outcome, plan, source, sha)
    ensures forall reason ::
        ZeroAt(outcome.zeros, b, reason) <==> 0 <= b < plan.logicalSize && ReasonAt(plan, source, b) == Some(reason)
  {
  }

  // ---------- Published items ----------

  /** What the manifest keeps of a published file. */
  datatype RestoreItemResult = RestoreItemResult(sidecarPublished: bool, zeroFilledRanges: seq<ZeroRange>) {
    predicate IsPartial() {
      sidecarPublished && exists z :: z in zeroFilledRanges && z.reason != SparseZero
    }
  }

  /**
   * The item of a completed stream is partial exactly when its sidecar exists, hence exactly when some byte was lost.
   */
  lemma PartialIffLost(item: RestoreItemResult, sidecar: Option<Sidecar>, candidateId: nat, outcome: StreamOutcome,
                       plan: ContentPlan, source: Source, sha: seq<Byte> -> seq<Byte>)
    requires OutcomeOf(outcome, plan, source, sha) && SidecarOf(sidecar, candidateId, plan.logicalSize, outcome)
    requires item == RestoreItemResult(sidecar.Some?, outcome.zeros)
    ensures item.IsPartial() <==> sidecar.Some?
    ensures item.IsPartial() <==> LosesBytes(plan, source)
  {
    hide Content, PlanMeaning, ZeroReasonOf, ListedByReason;
    NonSparseIffLoses(outcome, plan, source, sha);
    StreamSidecar(sidecar, candidateId, outcome, plan, source, sha);
  }
}
