/** NTFS runlists: the decoder (crates/fs-ntfs/src/runs.rs) and the fixture encoder it must invert. */
module Runlist {
  import opened Common

  const MAX_RUNS: nat := 100_000

  datatype RunElement = RunElement(clusterCount: nat, lcn: Option<nat>)

  datatype RunError =
    | MissingTerminator
    | InvalidHeader(header: Byte)
    | LengthOutOfBounds
    | ZeroLengthRun
    | TotalOverflow
    | LongerThanVolume
    | OffsetOutOfBounds
    | OutsideVolume(lcn: int)
    | PastVolumeEnd
    | TooManyRuns

  /** `(delta << shift) >> shift` on the assembled little-endian bytes. */
  function SignExtend(s: seq<Byte>): int {
    var raw := FromLE(s);
    if s != [] && s[|s| - 1] >= 0x80 then raw - Pow256(|s|) else raw
  }

  /** One decoded element, the bytes it took, and the running LCN after it. */
  datatype Step = Step(run: RunElement, size: nat, lcn: int)

  function DecodeElement(buf: seq<Byte>, lcn: int, total: nat, totalClusters: nat): (r: Result<Step, RunError>)
    requires buf != [] && buf[0] != 0
    ensures r.Ok? ==>
      && 1 < r.value.size <= |buf|
      && r.value.run.clusterCount > 0
      && total + r.value.run.clusterCount <= totalClusters
      && (r.value.run.lcn.Some? ==> r.value.run.lcn.value + r.value.run.clusterCount <= totalClusters)
  {
    var lenSize := buf[0] % 16;
    var offSize := buf[0] / 16;
    if lenSize == 0 || lenSize > 8 || offSize > 8 then Err(InvalidHeader(buf[0]))
    else if 1 + lenSize > |buf| then Err(LengthOutOfBounds)
    else
      var count := FromLE(buf[1..1 + lenSize]);
      if count == 0 then Err(ZeroLengthRun)
      else if total + count >= U64_LIMIT then Err(TotalOverflow)
      else if total + count > totalClusters then Err(LongerThanVolume)
      else if offSize == 0 then Ok(Step(RunElement(count, None), 1 + lenSize, lcn))
      else if 1 + lenSize + offSize > |buf| then Err(OffsetOutOfBounds)
      else
        var next := lcn + SignExtend(buf[1 + lenSize..1 + lenSize + offSize]);
        if next < 0 || next % U64_LIMIT >= totalClusters then Err(OutsideVolume(next))
        else if next % U64_LIMIT + count >= U64_LIMIT || next % U64_LIMIT + count > totalClusters then
          Err(PastVolumeEnd)
        else Ok(Step(RunElement(count, Some(next % U64_LIMIT)), 1 + lenSize + offSize, next))
  }

  /** The meaning of the bytes left to decode, given the loop's running totals. */
  function DecodeRest(buf: seq<Byte>, lcn: int, total: nat, emitted: nat,
                      totalClusters: nat): Result<seq<RunElement>, RunError>
    decreases |buf|
  {
    if buf == [] then Err(MissingTerminator)
    else if buf[0] == 0 then Ok([])
    else
      var step :- DecodeElement(buf, lcn, total, totalClusters);
      if emitted + 1 > MAX_RUNS then Err(TooManyRuns)
      else
        var rest :- DecodeRest(buf[step.size..], step.lcn, total + step.run.clusterCount, emitted + 1, totalClusters);
        Ok([step.run] + rest)
  }

  function Decoded(buf: seq<Byte>, totalClusters: nat): Result<seq<RunElement>, RunError> {
    DecodeRest(buf, 0, 0, 0, totalClusters)
  }

  function Prepend(runs: seq<RunElement>, rest: Result<seq<RunElement>, RunError>): Result<seq<RunElement>, RunError> {
    if rest.Err? then rest else Ok(runs + rest.value)
  }

  lemma PrependNothing(rest: Result<seq<RunElement>, RunError>)
    ensures Prepend([], rest) == rest
  {
    if rest.Ok? {
      assert [] + rest.value == rest.value;
    }
  }

  lemma PrependMore(runs: seq<RunElement>, run: RunElement, rest: Result<seq<RunElement>, RunError>)
    ensures Prepend(runs, Prepend([run], rest)) == Prepend(runs + [run], rest)
  {
    if rest.Ok? {
      assert runs + ([run] + rest.value) == runs + [run] + rest.value;
    }
  }

  /** Reads the fields of the element at `pos`, as the loop body of the source does. */
  method ReadElement(buf: seq<Byte>, pos: nat, currentLcn: int, totalLen: nat, totalClusters: nat)
    returns (r: Result<Step, RunError>)
    requires pos < |buf| && buf[pos] != 0
    ensures r == DecodeElement(buf[pos..], currentLcn, totalLen, totalClusters)
  {
    ghost var rest := buf[pos..];
    var header, at := buf[pos], pos + 1;
    var lenSize, offSize := header % 16, header / 16;
    if lenSize == 0 || lenSize > 8 || offSize > 8 {
      return Err(InvalidHeader(header));
    }
    if at + lenSize > |buf| {
      return Err(LengthOutOfBounds);
    }
    assert buf[at..at + lenSize] == rest[1..1 + lenSize];
    var count := FromLE(buf[at..at + lenSize]);
    at := at + lenSize;
    if count == 0 {
      return Err(ZeroLengthRun);
    }
    if totalLen + count >= U64_LIMIT {
      return Err(TotalOverflow);
    }
    if totalLen + count > totalClusters {
      return Err(LongerThanVolume);
    }
    if offSize == 0 {
      return Ok(Step(RunElement(count, None), 1 + lenSize, currentLcn));
    }
    if at + offSize > |buf| {
      return Err(OffsetOutOfBounds);
    }
    assert buf[at..at + offSize] == rest[1 + lenSize..1 + lenSize + offSize];
    var next := currentLcn + SignExtend(buf[at..at + offSize]);
    if next < 0 || next % U64_LIMIT >= totalClusters {
      return Err(OutsideVolume(next));
    }
    var lcn := next % U64_LIMIT;
    if lcn + count >= U64_LIMIT || lcn + count > totalClusters {
      return Err(PastVolumeEnd);
    }
    return Ok(Step(RunElement(count, Some(lcn)), 1 + lenSize + offSize, next));
  }

  method DecodeRunlist(buf: seq<Byte>, totalClusters: U64) returns (r: Result<seq<RunElement>, RunError>)
    ensures r == Decoded(buf, totalClusters)
  {
    hide DecodeElement;
    var runs: seq<RunElement> := [];
    var pos, currentLcn := 0, 0;
    var totalLen: nat := 0;
    assert buf[0..] == buf;
    PrependNothing(Decoded(buf, totalClusters));
    while true
      invariant 0 <= pos <= |buf|
      invariant Decoded(buf, totalClusters)
        == Prepend(runs, DecodeRest(buf[pos..], currentLcn, totalLen, |runs|, totalClusters))
      decreases |buf| - pos
    {
      if pos == |buf| {
        return Err(MissingTerminator);
      }
      if buf[pos] == 0 {
        assert runs + [] == runs;
        return Ok(runs);
      }
      var element := ReadElement(buf, pos, currentLcn, totalLen, totalClusters);
      if element.Err? {
        return Err(element.error);
      }
      var step := element.value;
      assert buf[pos..][step.size..] == buf[pos + step.size..];
      PrependMore(runs, step.run,
          DecodeRest(buf[pos + step.size..], step.lcn, totalLen + step.run.clusterCount, |runs| + 1, totalClusters));
      pos, currentLcn, totalLen := pos + step.size, step.lcn, totalLen + step.run.clusterCount;
      runs := runs + [step.run];
      if |runs| > MAX_RUNS {
        return Err(TooManyRuns);
      }
    }
  }

  // ---------- What any accepted buffer guarantees ----------

  function TotalClusters(runs: seq<RunElement>): nat {
    if runs == [] then 0 else runs[0].clusterCount + TotalClusters(runs[1..])
  }

  ghost predicate InVolume(runs: seq<RunElement>, totalClusters: nat) {
    && (forall r :: r in runs ==> r.clusterCount > 0 && (r.lcn.Some? ==> r.lcn.value + r.clusterCount <= totalClusters))
    && TotalClusters(runs) <= totalClusters
    && |runs| <= MAX_RUNS
  }

  lemma {:induction false} DecodeRestInVolume(buf: seq<Byte>, lcn: int, total: nat, emitted: nat, totalClusters: nat)
    requires DecodeRest(buf, lcn, total, emitted, totalClusters).Ok?
    requires emitted <= MAX_RUNS && total <= totalClusters
    ensures var runs := DecodeRest(buf, lcn, total, emitted, totalClusters).value;
      && (forall r :: r in runs ==>
            r.clusterCount > 0 && (r.lcn.Some? ==> r.lcn.value + r.clusterCount <= totalClusters))
      && total + TotalClusters(runs) <= totalClusters
      && emitted + |runs| <= MAX_RUNS
    decreases |buf|
  {
    hide DecodeElement;
    if buf[0] != 0 {
      var step := DecodeElement(buf, lcn, total, totalClusters).value;
      DecodeRestInVolume(buf[step.size..], step.lcn, total + step.run.clusterCount, emitted + 1, totalClusters);
      var runs := DecodeRest(buf, lcn, total, emitted, totalClusters).value;
      assert runs[1..]
        == DecodeRest(buf[step.size..], step.lcn, total + step.run.clusterCount, emitted + 1, totalClusters).value;
    }
  }

  /** Whatever the bytes, an accepted runlist stays inside the volume. */
  lemma AcceptedRunsInVolume(buf: seq<Byte>, totalClusters: nat)
    requires Decoded(buf, totalClusters).Ok?
    ensures InVolume(Decoded(buf, totalClusters).value, totalClusters)
  {
    DecodeRestInVolume(buf, 0, 0, 0, totalClusters);
  }

  // ---------- The encoder and the round trip ----------

  /** An allocated run as the fixture builder takes it. */
  datatype Run = Run(lcn: nat, count: nat)

  function HalfRange(n: nat): int
    requires n > 0
  {
    128 * Pow256(n - 1)
  }

  predicate FitsSigned(v: int, n: nat)
    requires n > 0
  {
    -HalfRange(n) <= v < HalfRange(n)
  }

  /** Smallest byte count for an unsigned length below 2^56; the source's own shift overflows at eight bytes. */
  function MinLenBytes(v: nat, n: nat): (size: nat)
    requires 1 <= n <= 8
    requires v < U64_LIMIT
    ensures n <= size <= 8 && v < Pow256(size)
    decreases 8 - n
  {
    Pow256Values();
    if v < Pow256(n) || n == 8 then n else MinLenBytes(v, n + 1)
  }

  function MinOffBytes(v: int, n: nat): (size: nat)
    requires 1 <= n <= 8
    requires -LCN_LIMIT <= v < LCN_LIMIT
    ensures n <= size <= 8 && FitsSigned(v, size)
    decreases 8 - n
  {
    Pow256Values();
    if FitsSigned(v, n) || n == 8 then n else MinOffBytes(v, n + 1)
  }

  const COUNT_LIMIT: int := 0x100_0000_0000_0000
  const LCN_LIMIT: int := 0x8000_0000_0000_0000

  predicate EncodableRun(run: Run) {
    run.count < COUNT_LIMIT && run.lcn < LCN_LIMIT
  }

  ghost predicate Encodable(runs: seq<Run>) {
    forall r :: r in runs ==> EncodableRun(r)
  }

  function EncodeOne(run: Run, previous: nat): seq<Byte>
    requires EncodableRun(run) && previous < LCN_LIMIT
  {
    var delta := run.lcn - previous;
    var lenSize := MinLenBytes(run.count, 1);
    var offSize := MinOffBytes(delta, 1);
    EncodeFields(run.count, delta, lenSize, offSize)
  }

  /** Header nibbles, then the two fields cut from their eight-byte little-endian forms. */
  function EncodeFields(count: nat, delta: int, lenSize: nat, offSize: nat): seq<Byte>
    requires lenSize <= 8 && offSize <= 8
  {
    [(offSize * 16 + lenSize) as Byte] + ToLE(count, 8)[..lenSize] + ToLE(delta, 8)[..offSize]
  }

  function EncodeFrom(runs: seq<Run>, previous: nat): seq<Byte>
    requires Encodable(runs) && previous < LCN_LIMIT
  {
    if runs == [] then [0]
    else EncodeOne(runs[0], previous) + EncodeFrom(runs[1..], runs[0].lcn)
  }

  method EncodeRunlist(runs: seq<Run>) returns (out: seq<Byte>)
    requires Encodable(runs)
    ensures out == EncodeFrom(runs, 0)
  {
    hide EncodeOne;
    out := [];
    var previous: nat := 0;
    assert runs[0..] == runs;
    for i := 0 to |runs|
      invariant previous < LCN_LIMIT
      invariant EncodeFrom(runs, 0) == out + EncodeFrom(runs[i..], previous)
    {
      assert runs[i..][1..] == runs[i + 1..];
      assert out + (EncodeOne(runs[i], previous) + EncodeFrom(runs[i + 1..], runs[i].lcn))
        == out + EncodeOne(runs[i], previous) + EncodeFrom(runs[i + 1..], runs[i].lcn);
      out := out + EncodeOne(runs[i], previous);
      previous := runs[i].lcn;
    }
    out := out + [0];
  }

  function Elements(runs: seq<Run>): (elements: seq<RunElement>)
    ensures |elements| == |runs|
    ensures forall i :: 0 <= i < |runs| ==> elements[i] == RunElement(runs[i].count, Some(runs[i].lcn))
  {
    seq(|runs|, i requires 0 <= i < |runs| => RunElement(runs[i].count, Some(runs[i].lcn)))
  }

  /** A signed field reads back exactly when the value fits it. */
  lemma {:induction false} SignExtendToLE(v: int, n: nat)
    requires n > 0
    ensures SignExtend(ToLE(v, n)) == v <==> FitsSigned(v, n)
  {
    assert Pow256(n) == 256 * Pow256(n - 1);
    if FitsSigned(v, n) {
      FromToLE(v, n);
      TopByte(v, n);
    }
    SignedRange(ToLE(v, n));
  }

  lemma SignedRange(s: seq<Byte>)
    requires s != []
    ensures FitsSigned(SignExtend(s), |s|)
  {
    assert Pow256(|s|) == 256 * Pow256(|s| - 1);
    FromLEBound(s);
    TopHalf(s);
  }

  /** The top bit of the last byte says which half of the range a field is in. */
  lemma {:induction false} TopHalf(s: seq<Byte>)
    requires s != []
    ensures s[|s| - 1] >= 0x80 <==> FromLE(s) >= Pow256(|s|) / 2
  {
    assert Pow256(|s|) == 256 * Pow256(|s| - 1);
    if |s| > 1 {
      assert Pow256(|s| - 1) == 256 * Pow256(|s| - 2);
      TopHalf(s[1..]);
    } else {
      assert FromLE(s[1..]) == 0;
    }
  }

  lemma {:induction false} TopByte(v: int, n: nat)
    requires n > 0 && FitsSigned(v, n)
    ensures ToLE(v, n)[n - 1] >= 0x80 <==> v < 0
    decreases n
  {
    if n == 1 {
      assert Pow256(0) == 1;
    } else {
      assert Pow256(n - 1) == 256 * Pow256(n - 2);
      TopByte(v / 256, n - 1);
      assert ToLE(v, n)[n - 1] == ToLE(v / 256, n - 1)[n - 2];
    }
  }

  /** The three fields of an encoded run, as the decoder slices them. */
  lemma EncodedFields(count: nat, delta: int, lenSize: nat, offSize: nat, tail: seq<Byte>)
    requires 1 <= lenSize <= 8 && 1 <= offSize <= 8
    requires count < Pow256(lenSize) && FitsSigned(delta, offSize)
    ensures var head, buf :=
      EncodeFields(count, delta, lenSize, offSize), EncodeFields(count, delta, lenSize, offSize) + tail;
      && head[0] != 0 && buf[0] % 16 == lenSize && buf[0] / 16 == offSize
      && |head| == 1 + lenSize + offSize
      && FromLE(buf[1..1 + lenSize]) == count
      && SignExtend(buf[1 + lenSize..1 + lenSize + offSize]) == delta
  {
    hide ToLE, FromLE, SignExtend, Pow256, FitsSigned;
    ToLEPrefix(count, lenSize, 8);
    ToLEPrefix(delta, offSize, 8);
    FromToLE(count, lenSize);
    SignExtendToLE(delta, offSize);
    SliceFields(offSize * 16 + lenSize, ToLE(count, lenSize), ToLE(delta, offSize), tail);
  }

  lemma SliceFields(header: Byte, length: seq<Byte>, offset: seq<Byte>, tail: seq<Byte>)
    ensures var buf := [header] + length + offset + tail;
      && buf[0] == header
      && buf[1..1 + |length|] == length
      && buf[1 + |length|..1 + |length| + |offset|] == offset
  {
  }

  /** The decoder on any buffer whose fields are known and lie in the volume. */
  lemma DecodeFields(buf: seq<Byte>, lenSize: nat, offSize: nat, lcn: nat, next: nat, total: nat, totalClusters: U64)
    requires 1 <= lenSize <= 8 && 1 <= offSize <= 8 && |buf| >= 1 + lenSize + offSize
    requires buf[0] % 16 == lenSize && buf[0] / 16 == offSize
    requires SignExtend(buf[1 + lenSize..1 + lenSize + offSize]) == next - lcn
    requires var count := FromLE(buf[1..1 + lenSize]);
      count > 0 && next + count <= totalClusters && total + count <= totalClusters
    ensures DecodeElement(buf, lcn, total, totalClusters)
      == Ok(Step(RunElement(FromLE(buf[1..1 + lenSize]), Some(next)), 1 + lenSize + offSize, next))
  {
    hide FromLE, SignExtend;
    assert next % U64_LIMIT == next;
  }

  /** Decoding one encoded run consumes exactly its bytes. */
  lemma DecodeOne(run: Run, previous: nat, tail: seq<Byte>, total: nat, totalClusters: U64)
    requires EncodableRun(run) && previous < LCN_LIMIT
    requires run.count > 0 && run.lcn + run.count <= totalClusters
    requires total + run.count <= totalClusters
    ensures EncodeOne(run, previous)[0] != 0
    ensures DecodeElement(EncodeOne(run, previous) + tail, previous, total, totalClusters)
      == Ok(Step(RunElement(run.count, Some(run.lcn)), |EncodeOne(run, previous)|, run.lcn))
  {
    hide DecodeElement, EncodeFields, MinLenBytes, MinOffBytes, Pow256, HalfRange;
    DecodeEncodedFields(run.count, run.lcn, previous, MinLenBytes(run.count, 1), MinOffBytes(run.lcn - previous, 1),
                        tail, total, totalClusters);
  }

  lemma DecodeEncodedFields(count: nat, lcn: nat, previous: nat, lenSize: nat, offSize: nat, tail: seq<Byte>,
                            total: nat, totalClusters: U64)
    requires 1 <= lenSize <= 8 && 1 <= offSize <= 8
    requires 0 < count < Pow256(lenSize) && FitsSigned(lcn - previous, offSize)
    requires lcn + count <= totalClusters && total + count <= totalClusters
    ensures var head := EncodeFields(count, lcn - previous, lenSize, offSize);
      && head[0] != 0
      && DecodeElement(head + tail, previous, total, totalClusters)
           == Ok(Step(RunElement(count, Some(lcn)), |head|, lcn))
  {
    hide DecodeElement, EncodeFields, FromLE, SignExtend, Pow256, FitsSigned;
    EncodedFields(count, lcn - previous, lenSize, offSize, tail);
    DecodeFields(EncodeFields(count, lcn - previous, lenSize, offSize) + tail, lenSize, offSize, previous, lcn, total,
                 totalClusters);
  }

  lemma DecodeRestStep(head: seq<Byte>, tail: seq<Byte>, lcn: int, total: nat, emitted: nat, totalClusters: nat,
                       step: Step)
    requires head != [] && head[0] != 0 && emitted < MAX_RUNS && step.size == |head|
    requires DecodeElement(head + tail, lcn, total, totalClusters) == Ok(step)
    ensures DecodeRest(head + tail, lcn, total, emitted, totalClusters)
      == Prepend([step.run], DecodeRest(tail, step.lcn, total + step.run.clusterCount, emitted + 1, totalClusters))
  {
    hide DecodeElement;
    assert (head + tail)[|head|..] == tail;
  }

  lemma {:induction false} DecodeEncodeFrom(runs: seq<Run>, previous: nat, trailing: seq<Byte>, total: nat,
                                            emitted: nat, totalClusters: U64)
    requires Encodable(runs) && previous < LCN_LIMIT
    requires forall r :: r in runs ==> r.count > 0 && r.lcn + r.count <= totalClusters
    requires total + TotalClusters(Elements(runs)) <= totalClusters && emitted + |runs| <= MAX_RUNS
    ensures DecodeRest(EncodeFrom(runs, previous) + trailing, previous, total, emitted, totalClusters)
      == Ok(Elements(runs))
    decreases |runs|
  {
    hide DecodeElement, EncodeOne;
    if runs != [] {
      var run := runs[0];
      assert run in runs;
      var element := RunElement(run.count, Some(run.lcn));
      assert Elements(runs)[1..] == Elements(runs[1..]);
      assert Elements(runs) == [element] + Elements(runs[1..]);
      DecodeEncodeFrom(runs[1..], run.lcn, trailing, total + run.count, emitted + 1, totalClusters);
      DecodeEncodeStep(runs, previous, trailing, total, emitted, totalClusters);
    }
  }

  lemma DecodeEncodeStep(runs: seq<Run>, previous: nat, trailing: seq<Byte>, total: nat, emitted: nat,
                         totalClusters: U64)
    requires Encodable(runs) && previous < LCN_LIMIT
    requires runs != [] && EncodableRun(runs[0]) && runs[0].count > 0 && runs[0].lcn + runs[0].count <= totalClusters
    requires total + runs[0].count <= totalClusters && emitted < MAX_RUNS
    ensures DecodeRest(EncodeFrom(runs, previous) + trailing, previous, total, emitted, totalClusters)
      == Prepend([RunElement(runs[0].count, Some(runs[0].lcn))],
           DecodeRest(EncodeFrom(runs[1..], runs[0].lcn) + trailing, runs[0].lcn, total + runs[0].count, emitted + 1,
                      totalClusters))
  {
    hide DecodeElement, EncodeOne;
    var run := runs[0];
    var head, rest := EncodeOne(run, previous), EncodeFrom(runs[1..], run.lcn) + trailing;
    assert EncodeFrom(runs, previous) + trailing == head + rest;
    DecodeOne(run, previous, rest, total, totalClusters);
    DecodeRestStep(head, rest, previous, total, emitted, totalClusters,
                   Step(RunElement(run.count, Some(run.lcn)), |head|, run.lcn));
  }

  /**
   * Decoding the encoding gives the runs back exactly when they lie in the volume: positive counts, every run and the
   * total inside it, and no more than the decoder's run ceiling. Bytes after the terminator are never looked at.
   */
  lemma RunlistRoundTrip(runs: seq<Run>, trailing: seq<Byte>, totalClusters: U64)
    requires Encodable(runs)
    ensures Decoded(EncodeFrom(runs, 0) + trailing, totalClusters) == Ok(Elements(runs))
      <==> InVolume(Elements(runs), totalClusters)
  {
    var elements := Elements(runs);
    if Decoded(EncodeFrom(runs, 0) + trailing, totalClusters) == Ok(elements) {
      AcceptedRunsInVolume(EncodeFrom(runs, 0) + trailing, totalClusters);
    }
    if InVolume(elements, totalClusters) {
      forall r | r in runs
        ensures r.count > 0 && r.lcn + r.count <= totalClusters
      {
        var i :| 0 <= i < |runs| && runs[i] == r;
        assert elements[i] in elements;
      }
      DecodeEncodeFrom(runs, 0, trailing, 0, 0, totalClusters);
    }
  }
}
