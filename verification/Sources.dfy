/** Read-only sources with unreadable positions (crates/core/src/source.rs, crates/core/src/read.rs). */
module Sources {
  import opened Common
  import opened Intervals

  /** A failed sub-range relative to the request. */
  datatype BadRange = BadRange(offset: nat, len: nat) {
    predicate Covers(i: int) {
      offset <= i < offset + len
    }
  }

  datatype ReadOutcome = ReadOutcome(bytesValid: nat, badRanges: seq<BadRange>)

  ghost predicate Reported(ranges: seq<BadRange>, i: int) {
    exists r :: r in ranges && r.Covers(i)
  }

  /** Fixed bytes, unreadable positions, what a read leaves at those, and the outcome reported for each request. */
  datatype Source = Source(data: seq<Byte>, bad: set<nat>, junk: nat -> Byte, report: (nat, nat) -> ReadOutcome) {
    predicate Readable(p: nat) {
      p < |data| && p !in bad
    }

    /** What a best-effort read leaves in the buffer. */
    function RawAt(p: nat): Byte {
      if Readable(p) then data[p] else junk(p)
    }

    function RawBytes(p: nat, n: nat): (s: seq<Byte>)
      ensures |s| == n
    {
      seq<Byte>(n, i requires 0 <= i < n => RawAt(p + i))
    }

    /** The readers that clear what they could not read. */
    ghost predicate ZeroFilling() {
      forall p: nat :: !Readable(p) ==> junk(p) == 0
    }

    /** The readable bytes, and zero elsewhere. */
    function ByteAt(p: nat): Byte {
      if Readable(p) then data[p] else 0
    }

    function BytesAt(p: nat, n: nat): (s: seq<Byte>)
      ensures |s| == n
    {
      seq<Byte>(n, i requires 0 <= i < n => ByteAt(p + i))
    }

    /** A coherent report names exactly the unreadable positions of the request. */
    ghost predicate TruthfulAt(p: nat, n: nat) {
      Coherent(n, report(p, n)) ==>
        forall i :: 0 <= i < n ==> (Reported(report(p, n).badRanges, i) <==> !Readable(p + i))
    }

    /** Incoherent reports are possible and recognized by the readers of the outcome; coherent ones do not lie. */
    ghost predicate Truthful() {
      forall p, n :: TruthfulAt(p, n)
    }
  }

  /** Ranges inside the request whose union explains the valid count. */
  ghost predicate Coherent(n: nat, outcome: ReadOutcome) {
    && (forall r :: r in outcome.badRanges ==> r.offset + r.len <= n)
    && outcome.bytesValid == n - Count((i: nat) => Reported(outcome.badRanges, i), n)
  }

  /** The strict form: also nonempty and not more ranges than bytes. */
  ghost predicate WellReported(n: nat, outcome: ReadOutcome) {
    && |outcome.badRanges| <= n
    && (forall r :: r in outcome.badRanges ==> r.len > 0 && r.offset + r.len <= n)
    && outcome.bytesValid == n - Count((i: nat) => Reported(outcome.badRanges, i), n)
  }

  /** `read_best_effort_at` into `buffer[lo..lo + n]`. */
  method ReadBestEffort(source: Source, p: nat, buffer: array<Byte>, lo: nat, n: nat) returns (outcome: ReadOutcome)
    requires lo + n <= buffer.Length
    modifies buffer
    ensures outcome == source.report(p, n)
    ensures buffer[lo..lo + n] == source.RawBytes(p, n)
    ensures buffer[..lo] == old(buffer[..lo]) && buffer[lo + n..] == old(buffer[lo + n..])
  {
    forall i | 0 <= i < n {
      buffer[lo + i] := source.RawAt(p + i);
    }
    outcome := source.report(p, n);
  }
}
