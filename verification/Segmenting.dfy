/** Where a content plan has to start a new segment, told from the extents alone (crates/restore/src/plan.rs:96-206). */
module Segmenting {
  import opened Common
  import opened Candidates

  /** The extent a byte belongs to; the last listed one if there are several. */
  ghost function CoverOf(extents: seq<ExtentRun>, b: int): (cover: Option<ExtentRun>)
    ensures cover.Some? ==> cover.value in extents && cover.value.Covers(b)
    ensures cover.None? ==> forall e :: e in extents ==> !e.Covers(b)
  {
    if extents == [] then None
    else if extents[|extents| - 1].Covers(b) then Some(extents[|extents| - 1])
    else CoverOf(extents[..|extents| - 1], b)
  }

  ghost function ByteMeaning(extents: seq<ExtentRun>, b: int): Meaning {
    match CoverOf(extents, b)
    case None => Zero(MissingExtent)
    case Some(e) => ExtentMeaning(e, b)
  }

  ghost function AvailabilityOf(extents: seq<ExtentRun>, b: int): Option<Availability> {
    match CoverOf(extents, b)
    case None => None
    case Some(e) => Some(e.availability)
  }

  /**
   * Byte `x` carries on where the byte before it left off: the next source byte of one availability, or the same kind
   * of zero.
   */
  ghost predicate Continues(extents: seq<ExtentRun>, x: int) {
    && Follows(ByteMeaning(extents, x - 1), ByteMeaning(extents, x))
    && (ByteMeaning(extents, x).Physical? ==> AvailabilityOf(extents, x - 1) == AvailabilityOf(extents, x))
  }

  ghost predicate Starts(extents: seq<ExtentRun>, x: int) {
    x == 0 || !Continues(extents, x)
  }

  /** The places below `n` where a segment has to start. */
  ghost function SegmentCount(extents: seq<ExtentRun>, n: nat): nat {
    if n == 0 then 0 else SegmentCount(extents, n - 1) + if Starts(extents, n - 1) then 1 else 0
  }

  ghost predicate Agree(a: seq<ExtentRun>, b: seq<ExtentRun>, n: int) {
    forall x: int :: 0 <= x < n ==> CoverOf(a, x) == CoverOf(b, x)
  }

  lemma {:induction false} CountAgree(a: seq<ExtentRun>, b: seq<ExtentRun>, n: nat)
    requires Agree(a, b, n)
    ensures SegmentCount(a, n) == SegmentCount(b, n)
    ensures forall x: int :: 0 <= x < n ==> (Starts(a, x) <==> Starts(b, x))
  {
    hide CoverOf;
    if n > 0 {
      CountAgree(a, b, n - 1);
    }
  }

  lemma {:induction false} CountGrows(extents: seq<ExtentRun>, m: nat, n: nat)
    requires m <= n
    ensures SegmentCount(extents, m) <= SegmentCount(extents, n)
    decreases n
  {
    if m < n {
      CountGrows(extents, m, n - 1);
    }
  }

  /** A stretch without a break counts once if it starts a segment, and else not at all. */
  lemma {:induction false} CountStretch(extents: seq<ExtentRun>, lo: nat, hi: nat)
    requires lo < hi && forall x: int :: lo < x < hi ==> Continues(extents, x)
    ensures SegmentCount(extents, hi) == SegmentCount(extents, lo) + if Starts(extents, lo) then 1 else 0
    decreases hi
  {
    hide Continues;
    if lo + 1 < hi {
      CountStretch(extents, lo, hi - 1);
    }
  }

  lemma AgreeSnoc(extents: seq<ExtentRun>, next: ExtentRun)
    ensures Agree(extents, extents + [next], next.logical)
    ensures forall x: int :: next.Covers(x) ==> CoverOf(extents + [next], x) == Some(next)
  {
    assert (extents + [next])[..|extents|] == extents;
  }

  /** Extents that start later change nothing before. */
  lemma {:induction false} AgreePrefix(extents: seq<ExtentRun>, k: nat, n: int)
    requires k <= |extents| && forall j :: k <= j < |extents| ==> n <= extents[j].logical
    ensures Agree(extents[..k], extents, n)
    decreases |extents|
  {
    if k < |extents| {
      var rest := extents[..|extents| - 1];
      AgreePrefix(rest, k, n);
      assert rest[..k] == extents[..k];
    } else {
      assert extents[..k] == extents;
    }
  }
}
