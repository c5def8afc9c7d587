/** Recoverable items, their extents, and what each file byte stands for (crates/core/src/candidate.rs). */
module Candidates {
  import opened Common

  datatype Availability =
    | FreeInSnapshot
    | CurrentlyAllocated
    | OutOfVolume
    | ReadFailed
    | Zeroed
    | Resident
    | Sparse
    | Unknown

  datatype ZeroReason =
    | SparseZero
    | MissingExtent
    | AllocatedZero
    | OutOfVolumeZero
    | PreviouslyReadFailed
    | ObservedZeroed
    | UnknownAvailability

  datatype ExtentRun = ExtentRun(logical: nat, physical: Option<nat>, len: nat, availability: Availability) {
    function End(): nat {
      logical + len
    }

    predicate Covers(b: int) {
      logical <= b < logical + len
    }
  }

  /** What a restored file byte is: a source byte, or a zero with the reason for it. */
  datatype Meaning = Physical(offset: int) | Zero(reason: ZeroReason)

  /** The mapping decision of `readable_mapping`, byte by byte. */
  function ExtentMeaning(extent: ExtentRun, b: int): Meaning {
    match extent.availability
    case FreeInSnapshot | Resident =>
      if extent.physical.None? then Zero(UnknownAvailability)
      else Physical(extent.physical.value + (b - extent.logical))
    case Sparse => Zero(SparseZero)
    case CurrentlyAllocated => Zero(AllocatedZero)
    case OutOfVolume => Zero(OutOfVolumeZero)
    case ReadFailed => Zero(PreviouslyReadFailed)
    case Zeroed => Zero(ObservedZeroed)
    case Unknown => Zero(UnknownAvailability)
  }

  /** Each availability that is not read gives zeros for its own reason; only an unplaced extent shares one. */
  lemma ZeroReasons(extent: ExtentRun, b: int)
    ensures var meaning := ExtentMeaning(extent, b);
      && (meaning == Zero(PreviouslyReadFailed) <==> extent.availability.ReadFailed?)
      && (meaning == Zero(ObservedZeroed) <==> extent.availability.Zeroed?)
      && (meaning == Zero(AllocatedZero) <==> extent.availability.CurrentlyAllocated?)
      && (meaning == Zero(OutOfVolumeZero) <==> extent.availability.OutOfVolume?)
      && (meaning == Zero(SparseZero) <==> extent.availability.Sparse?)
      && (meaning == Zero(UnknownAvailability) <==>
            || extent.availability.Unknown?
            || (extent.physical.None? && extent.availability in {FreeInSnapshot, Resident}))
      && meaning != Zero(MissingExtent)
      && (meaning.Physical? <==> Readable(extent))
      && (meaning.Physical? ==> meaning.offset - b == extent.physical.value - extent.logical)
  {
  }

  /** The second meaning carries on where the first left off: the next source byte, or the same kind of zero. */
  predicate Follows(before: Meaning, after: Meaning) {
    match after
    case Physical(p) => before == Physical(p - 1)
    case Zero(reason) => before == Zero(reason)
  }

  predicate Readable(extent: ExtentRun) {
    (extent.availability.FreeInSnapshot? || extent.availability.Resident?) && extent.physical.Some?
  }

  datatype Kind = File | Directory

  datatype Candidate = Candidate(id: nat, kind: Kind, size: nat, extents: seq<ExtentRun>)
}
