/** Reading the MFT through its runs, and the prefix that can be trusted (crates/fs-ntfs/src/scan.rs:390-533). */
module MftStream {
  import opened Common
  import opened Arithmetic
  import opened Sources
  import opened Runlist
  import Allocation
  import Candidates
  import opened Extents

  /** Where a stream byte is stored. */
  datatype Place = At(p: nat) | Hole | Beyond

  function PlaceInRun(run: RunElement, clusterSize: nat, within: nat): Place {
    if run.lcn.None? then Hole else At(run.lcn.value * clusterSize + within)
  }

  function PlaceFrom(runs: seq<RunElement>, clusterSize: nat, b: nat): Place {
    if runs == [] then Beyond
    else
      var rest, last := runs[..|runs| - 1], runs[|runs| - 1];
      var start := RunBytes(rest, clusterSize);
      if b < start then PlaceFrom(rest, clusterSize, b)
      else if b < start + last.clusterCount * clusterSize then PlaceInRun(last, clusterSize, b - start)
      else Beyond
  }

  function PlaceOf(runs: seq<RunElement>, clusterSize: nat, b: nat): Place {
    PlaceFrom(runs, clusterSize, b)
  }

  lemma {:induction false} PlaceByRun(runs: seq<RunElement>, clusterSize: nat, k: nat, b: nat)
    requires k < |runs| && RunBytes(runs[..k], clusterSize) <= b < RunBytes(runs[..k + 1], clusterSize)
    ensures PlaceOf(runs, clusterSize, b) == PlaceInRun(runs[k], clusterSize, b - RunBytes(runs[..k], clusterSize))
    decreases |runs|
  {
    RunBytesStep(runs, clusterSize, k);
    var rest := runs[..|runs| - 1];
    if k == |runs| - 1 {
      assert runs[..k] == rest;
    } else {
      assert rest[..k] == runs[..k] && rest[..k + 1] == runs[..k + 1];
      RunBytesPrefix(rest, clusterSize, k + 1);
      PlaceByRun(rest, clusterSize, k, b);
    }
  }

  /** The stream reader and the extents of the same runs agree on where a byte is. */
  lemma {:induction false} PlacesAgree(runs: seq<RunElement>, clusterSize: nat,
                                       allocation: Option<Allocation.AllocationMap>, b: nat)
    requires clusterSize > 0
    ensures var meaning, place := MappedMeaning(runs, clusterSize, allocation, b), PlaceOf(runs, clusterSize, b);
      && (meaning == Candidates.Zero(Candidates.SparseZero) <==> place == Hole)
      && (meaning == Candidates.Zero(Candidates.MissingExtent) <==> place == Beyond)
      && (meaning.Physical? ==> place.At? && place.p == meaning.offset)
  {
    if runs != [] {
      PlacesAgree(runs[..|runs| - 1], clusterSize, allocation, b);
    }
  }

  lemma PlacePastEnd(runs: seq<RunElement>, clusterSize: nat, b: nat)
    requires RunBytes(runs, clusterSize) <= b
    ensures PlaceOf(runs, clusterSize, b) == Beyond
  {
  }

  /** All byte positions of the runs fit 64 bits, as they do for runs inside a volume. */
  ghost predicate Expressible(runs: seq<RunElement>, clusterSize: nat) {
    && RunBytes(runs, clusterSize) < U64_LIMIT
    && forall r :: r in runs && r.lcn.Some? ==> r.lcn.value * clusterSize + r.clusterCount * clusterSize < U64_LIMIT
  }

  /** Runs accepted for a volume whose clusters lie inside the source are expressible. */
  lemma AcceptedExpressible(runs: seq<RunElement>, clusterSize: nat, totalClusters: nat)
    requires InVolume(runs, totalClusters) && totalClusters * clusterSize < U64_LIMIT
    ensures Expressible(runs, clusterSize)
  {
    RunBytesTotal(runs, clusterSize);
    ProductOrder(TotalClusters(runs), totalClusters, clusterSize);
    forall r | r in runs && r.lcn.Some?
      ensures r.lcn.value * clusterSize + r.clusterCount * clusterSize < U64_LIMIT
    {
      Distribute(r.lcn.value, r.clusterCount, clusterSize);
      ProductOrder(r.lcn.value + r.clusterCount, totalClusters, clusterSize);
    }
  }

  lemma {:induction false} RunBytesTotal(runs: seq<RunElement>, clusterSize: nat)
    ensures RunBytes(runs, clusterSize) == TotalClusters(runs) * clusterSize
    decreases |runs|
  {
    if runs != [] {
      var rest, last := runs[..|runs| - 1], runs[|runs| - 1];
      RunBytesTotal(rest, clusterSize);
      TotalClustersSnoc(rest, last);
      assert runs == rest + [last];
      Distribute(TotalClusters(rest), last.clusterCount, clusterSize);
    }
  }

  lemma {:induction false} TotalClustersSnoc(runs: seq<RunElement>, last: RunElement)
    ensures TotalClusters(runs + [last]) == TotalClusters(runs) + last.clusterCount
  {
    if runs != [] {
      TotalClustersSnoc(runs[1..], last);
      assert (runs + [last])[1..] == runs[1..] + [last];
    } else {
      assert ([] + [last])[1..] == [];
    }
  }

  // ---------- Single reads ----------

  predicate Served(source: Source, place: Place) {
    match place
    case At(p) => source.Readable(p)
    case Hole => true
    case Beyond => false
  }

  function ServedByte(source: Source, place: Place): Byte {
    if place.At? then source.ByteAt(place.p) else 0
  }

  ghost predicate StreamOk(source: Source, runs: seq<RunElement>, clusterSize: nat, offset: nat, n: nat) {
    forall b: nat :: offset <= b < offset + n ==> Served(source, PlaceOf(runs, clusterSize, b))
  }

  ghost function StreamBytes(source: Source, runs: seq<RunElement>, clusterSize: nat, offset: nat,
                             n: nat): (s: seq<Byte>)
    ensures |s| == n
    ensures forall i :: 0 <= i < n ==> s[i] == ServedByte(source, PlaceOf(runs, clusterSize, offset + i))
  {
    seq<Byte>(n, i requires 0 <= i < n => ServedByte(source, PlaceOf(runs, clusterSize, offset + i)))
  }

  datatype StreamError = ArithmeticOverflow | ReadFailed(p: nat, n: nat) | EndedEarly(wanted: nat, got: nat)

  /** `read_exact_at` into `buffer[lo..lo + n]`. */
  method ReadExact(source: Source, p: nat, buffer: array<Byte>, lo: nat, n: nat) returns (ok: bool)
    requires lo + n <= buffer.Length
    modifies buffer
    ensures ok <==> forall i :: p <= i < p + n ==> source.Readable(i)
    ensures forall i :: lo <= i < lo + n ==> buffer[i] == source.ByteAt(p + (i - lo))
    ensures forall i :: 0 <= i < buffer.Length && !(lo <= i < lo + n) ==> buffer[i] == old(buffer[i])
  {
    forall i | 0 <= i < n {
      buffer[lo + i] := source.ByteAt(p + i);
    }
    ok := forall i :: p <= i < p + n ==> source.Readable(i);
  }

  /** The first `filled` bytes of the request are in place, the rest is still zero. */
  ghost predicate Filled(out: array<Byte>, filled: nat, source: Source, runs: seq<RunElement>, clusterSize: nat,
                         offset: nat)
    reads out
  {
    && filled <= out.Length
    && (forall b :: offset <= b < offset + filled ==>
          Served(source, PlaceOf(runs, clusterSize, b)) &&
            out[b - offset] == ServedByte(source, PlaceOf(runs, clusterSize, b)))
    && (forall i :: filled <= i < out.Length ==> out[i] == 0)
  }

  /** One run's share of a request: read it, or leave the zeros of a hole. */
  method FillFromRun(source: Source, runs: seq<RunElement>, clusterSize: nat, k: nat, out: array<Byte>, filled: nat,
                     offset: nat, take: nat)
    returns (error: Option<StreamError>)
    requires k < |runs| && 0 < take && filled + take <= out.Length
    requires Filled(out, filled, source, runs, clusterSize, offset)
    requires RunBytes(runs[..k], clusterSize) <= offset + filled
    requires offset + filled + take <= RunBytes(runs[..k + 1], clusterSize)
    modifies out
    ensures error.None? ==> Filled(out, filled + take, source, runs, clusterSize, offset)
    ensures error.Some? ==> error.value.ReadFailed? || error.value.ArithmeticOverflow?
    ensures error.Some? && |source.data| < U64_LIMIT ==> Unserved(source, runs, clusterSize, offset + filled, take)
    ensures error == Some(ArithmeticOverflow) ==> PointsTooFar(runs, clusterSize, offset + filled, take)
  {
    hide PlaceOf, RunBytes;
    var start := RunBytes(runs[..k], clusterSize);
    var within := offset + filled - start;
    RunPlaces(runs, clusterSize, k, offset + filled, take);
    error := None;
    if runs[k].lcn.Some? {
      var p := runs[k].lcn.value * clusterSize + within;
      if p >= U64_LIMIT {
        assert PlaceOf(runs, clusterSize, offset + filled) == At(p);
        return Some(ArithmeticOverflow);
      }
      var ok := ReadExact(source, p, out, filled, take);
      if !ok {
        var i :| p <= i < p + take && !source.Readable(i);
        assert PlaceOf(runs, clusterSize, offset + filled + (i - p)) == At(i);
        return Some(ReadFailed(p, take));
      }
    }
  }

  ghost predicate Unserved(source: Source, runs: seq<RunElement>, clusterSize: nat, offset: nat, n: nat) {
    exists b: nat :: offset <= b < offset + n && !Served(source, PlaceOf(runs, clusterSize, b))
  }

  predicate TooFar(place: Place) {
    place.At? && place.p >= U64_LIMIT
  }

  /** Some byte of the request is stored past 64 bits. */
  ghost predicate PointsTooFar(runs: seq<RunElement>, clusterSize: nat, offset: nat, n: nat) {
    exists b: nat :: offset <= b < offset + n && TooFar(PlaceOf(runs, clusterSize, b))
  }

  /** Neighbouring bytes of one run are neighbours on the source. */
  lemma RunPlaces(runs: seq<RunElement>, clusterSize: nat, k: nat, first: nat, take: nat)
    requires k < |runs| && RunBytes(runs[..k], clusterSize) <= first
    requires first + take <= RunBytes(runs[..k + 1], clusterSize)
    ensures var p := PlaceInRun(runs[k], clusterSize, first - RunBytes(runs[..k], clusterSize));
      forall b :: first <= b < first + take ==>
        PlaceOf(runs, clusterSize, b) == if p.At? then At(p.p + (b - first)) else Hole
  {
    forall b | first <= b < first + take
      ensures PlaceOf(runs, clusterSize, b) == PlaceInRun(runs[k], clusterSize, b - RunBytes(runs[..k], clusterSize))
    {
      PlaceByRun(runs, clusterSize, k, b);
    }
    hide PlaceOf, RunBytes;
  }

  /**
   * `read_stream_range`: succeeds exactly when every byte asked for is mapped and readable and no run before the end
   * of the request overflows, and then returns those bytes. The source's checks for a gap between runs and for an
   * overflow of the position wanted next cannot fail.
   */
  method ReadStreamRange(source: Source, runs: seq<RunElement>, clusterSize: nat, offset: U64, len: nat)
    returns (r: Result<seq<Byte>, StreamError>)
    requires |source.data| < U64_LIMIT
    ensures r.Ok? <==> StreamOk(source, runs, clusterSize, offset, len) && !Overflows(runs, clusterSize, offset, len)
    ensures r.Ok? ==> r.value == StreamBytes(source, runs, clusterSize, offset, len)
    ensures r == Err(ArithmeticOverflow) ==>
        Overflows(runs, clusterSize, offset, len)
        || PointsTooFar(runs, clusterSize, offset, len)
    ensures r.Err? && r.error.EndedEarly? ==> offset + len > RunBytes(runs, clusterSize)
  {
    hide PlaceOf, RunBytes, Overflows;
    var out := new Byte[len](_ => 0);
    var filled, error := FillFromRuns(source, runs, clusterSize, out, offset);
    if error.Some? {
      return Err(error.value);
    }
    if filled < len {
      PlacePastEnd(runs, clusterSize, offset + len - 1);
      return Err(EndedEarly(len, filled));
    }
    AllFilled(out, source, runs, clusterSize, offset);
    return Ok(out[..]);
  }

  lemma AllFilled(out: array<Byte>, source: Source, runs: seq<RunElement>, clusterSize: nat, offset: nat)
    requires Filled(out, out.Length, source, runs, clusterSize, offset)
    ensures StreamOk(source, runs, clusterSize, offset, out.Length)
    ensures out[..] == StreamBytes(source, runs, clusterSize, offset, out.Length)
  {
    hide PlaceOf;
    forall i | 0 <= i < out.Length
      ensures out[i] == ServedByte(source, PlaceOf(runs, clusterSize, offset + i))
    {
      var b := offset + i;
      assert out[b - offset] == ServedByte(source, PlaceOf(runs, clusterSize, b));
    }
  }

  /**
   * Run `k` is looked at by a request: it starts before the request's end, or the request is empty and all runs are.
   */
  ghost predicate LooksAt(runs: seq<RunElement>, clusterSize: nat, offset: nat, len: nat, k: nat) {
    k < |runs| && (len == 0 || RunBytes(runs[..k], clusterSize) < offset + len)
  }

  ghost predicate EndsTooFar(runs: seq<RunElement>, clusterSize: nat, k: nat)
    requires k < |runs|
  {
    RunBytes(runs[..k + 1], clusterSize) >= U64_LIMIT
  }

  /** Some run the request looks at ends past 64 bits. */
  ghost predicate Overflows(runs: seq<RunElement>, clusterSize: nat, offset: nat, len: nat) {
    exists k: nat :: LooksAt(runs, clusterSize, offset, len, k) && EndsTooFar(runs, clusterSize, k)
  }

  lemma OverflowsAt(runs: seq<RunElement>, clusterSize: nat, offset: nat, len: nat, k: nat)
    requires LooksAt(runs, clusterSize, offset, len, k) && EndsTooFar(runs, clusterSize, k)
    ensures Overflows(runs, clusterSize, offset, len)
  {
  }

  lemma RunBytesOrder(runs: seq<RunElement>, clusterSize: nat, j: nat, k: nat)
    requires j <= k <= |runs|
    ensures RunBytes(runs[..j], clusterSize) <= RunBytes(runs[..k], clusterSize)
  {
    assert runs[..k][..j] == runs[..j];
    RunBytesPrefix(runs[..k], clusterSize, j);
  }

  /** Once a nonempty request is filled by the first `k` runs without overflow, no later run is looked at. */
  lemma RestIgnored(runs: seq<RunElement>, clusterSize: nat, offset: nat, len: nat, k: nat)
    requires k <= |runs| && RunBytes(runs[..k], clusterSize) < U64_LIMIT
    requires k == |runs| || (0 < len && offset + len <= RunBytes(runs[..k], clusterSize))
    ensures !Overflows(runs, clusterSize, offset, len)
  {
    hide RunBytes;
    forall j: nat | LooksAt(runs, clusterSize, offset, len, j)
      ensures !EndsTooFar(runs, clusterSize, j)
    {
      if j < k {
        RunBytesOrder(runs, clusterSize, j + 1, k);
      } else {
        RunBytesOrder(runs, clusterSize, k, j);
        assert false;
      }
    }
  }

  lemma ExpressibleNeverOverflows(runs: seq<RunElement>, clusterSize: nat, offset: nat, len: nat)
    requires Expressible(runs, clusterSize)
    ensures !Overflows(runs, clusterSize, offset, len)
  {
    assert runs[..|runs|] == runs;
    RestIgnored(runs, clusterSize, offset, len, |runs|);
  }

  /** The loop over the runs. */
  method FillFromRuns(source: Source, runs: seq<RunElement>, clusterSize: nat, out: array<Byte>, offset: U64)
    returns (filled: nat, error: Option<StreamError>)
    requires |source.data| < U64_LIMIT && forall i :: 0 <= i < out.Length ==> out[i] == 0
    modifies out
    ensures error.None? ==>
      Filled(out, filled, source, runs, clusterSize, offset) && !Overflows(runs, clusterSize, offset, out.Length)
    ensures error.None? && filled < out.Length ==> RunBytes(runs, clusterSize) < offset + out.Length
    ensures error.Some? ==> !error.value.EndedEarly?
    ensures error.Some? ==>
      Overflows(runs, clusterSize, offset, out.Length) || !StreamOk(source, runs, clusterSize, offset, out.Length)
    ensures error == Some(ArithmeticOverflow) ==>
        Overflows(runs, clusterSize, offset, out.Length)
        || PointsTooFar(runs, clusterSize, offset, out.Length)
  {
    FillStarts(source, runs, clusterSize, out, offset);
    hide StreamOk, Overflows, RunBytes, PointsTooFar, FillState;
    var streamPos: nat := 0;
    filled, error := 0, None;
    for k := 0 to |runs|
      invariant error.None? && FillState(out, filled, source, runs, clusterSize, offset, k, streamPos)
      invariant filled < out.Length || out.Length == 0
    {
      error, filled, streamPos := FillNext(source, runs, clusterSize, k, out, filled, offset, streamPos);
      if error.Some? {
        return;
      }
      if 0 < out.Length <= filled {
        FillEnds(out, filled, source, runs, clusterSize, offset, k + 1, streamPos);
        return;
      }
    }
    assert runs[..|runs|] == runs;
    FillEnds(out, filled, source, runs, clusterSize, offset, |runs|, streamPos);
  }

  /** Before run `k`: the request is filled as far as the runs go, and they have not overflowed. */
  ghost predicate FillState(out: array<Byte>, filled: nat, source: Source, runs: seq<RunElement>, clusterSize: nat,
                            offset: nat, k: nat, streamPos: nat)
    requires k <= |runs|
    reads out
  {
    && Filled(out, filled, source, runs, clusterSize, offset)
    && streamPos == RunBytes(runs[..k], clusterSize) < U64_LIMIT
    && (filled == 0 ==> out.Length == 0 || streamPos <= offset)
    && (0 < filled < out.Length ==> streamPos == offset + filled)
    && (0 < filled == out.Length ==> offset + filled <= streamPos)
  }

  lemma FillStarts(source: Source, runs: seq<RunElement>, clusterSize: nat, out: array<Byte>, offset: nat)
    requires forall i :: 0 <= i < out.Length ==> out[i] == 0
    ensures FillState(out, 0, source, runs, clusterSize, offset, 0, 0)
  {
    assert runs[..0] == [];
  }

  lemma FillEnds(out: array<Byte>, filled: nat, source: Source, runs: seq<RunElement>, clusterSize: nat, offset: nat,
                 k: nat, streamPos: nat)
    requires k <= |runs| && FillState(out, filled, source, runs, clusterSize, offset, k, streamPos)
    requires k == |runs| || 0 < out.Length <= filled
    ensures Filled(out, filled, source, runs, clusterSize, offset)
    ensures !Overflows(runs, clusterSize, offset, out.Length)
    ensures filled < out.Length ==> RunBytes(runs, clusterSize) < offset + out.Length
  {
    hide RunBytes, Overflows;
    assert runs[..|runs|] == runs;
    assert filled <= out.Length;
    RestIgnored(runs, clusterSize, offset, out.Length, k);
  }

  /** One turn of the loop: the run's share of the request, if it has one. */
  method FillNext(source: Source, runs: seq<RunElement>, clusterSize: nat, k: nat, out: array<Byte>, filled: nat,
                  offset: U64, streamPos: nat)
    returns (error: Option<StreamError>, now: nat, runEnd: nat)
    requires |source.data| < U64_LIMIT && k < |runs|
    requires FillState(out, filled, source, runs, clusterSize, offset, k, streamPos)
    requires out.Length == 0 || filled < out.Length
    modifies out
    ensures error.None? ==> FillState(out, now, source, runs, clusterSize, offset, k + 1, runEnd)
    ensures error.Some? ==> !error.value.EndedEarly?
    ensures error.Some? ==>
      Overflows(runs, clusterSize, offset, out.Length) || !StreamOk(source, runs, clusterSize, offset, out.Length)
    ensures error == Some(ArithmeticOverflow) ==>
      Overflows(runs, clusterSize, offset, out.Length) || PointsTooFar(runs, clusterSize, offset, out.Length)
  {
    hide StreamOk, Overflows, RunBytes, PointsTooFar, Unserved, PlaceOf, Served, ServedByte;
    RunBytesStep(runs, clusterSize, k);
    var runLen := runs[k].clusterCount * clusterSize;
    runEnd, now := streamPos + runLen, filled;
    assert filled <= out.Length;
    if runLen >= U64_LIMIT || runEnd >= U64_LIMIT {
      OverflowsAt(runs, clusterSize, offset, out.Length, k);
      return Some(ArithmeticOverflow), filled, runEnd;
    }
    var wantStart := offset + filled;
    if wantStart >= runEnd || filled >= out.Length {
      return None, filled, runEnd;
    }
    var take := Min(runLen - (wantStart - streamPos), out.Length - filled);
    hide Filled;
    error := FillFromRun(source, runs, clusterSize, k, out, filled, offset, take);
    now := filled + take;
    NotServed(source, runs, clusterSize, offset, out.Length, filled, take);
  }

  lemma NotServed(source: Source, runs: seq<RunElement>, clusterSize: nat, offset: nat, len: nat, filled: nat,
                  take: nat)
    requires filled + take <= len
    ensures Unserved(source, runs, clusterSize, offset + filled, take) ==>
      !StreamOk(source, runs, clusterSize, offset, len)
    ensures PointsTooFar(runs, clusterSize, offset + filled, take) ==> PointsTooFar(runs, clusterSize, offset, len)
  {
  }

  /** `stream_phys_offset`. */
  method StreamPhysOffset(runs: seq<RunElement>, clusterSize: nat, logical: nat) returns (r: Option<nat>)
    ensures r.Some? ==> PlaceOf(runs, clusterSize, logical) == At(r.value)
    ensures r.None? && Expressible(runs, clusterSize) ==> !PlaceOf(runs, clusterSize, logical).At?
  {
    var streamPos := 0;
    for k := 0 to |runs|
      invariant streamPos == RunBytes(runs[..k], clusterSize) <= logical
    {
      hide RunBytes, PlaceOf;
      RunBytesStep(runs, clusterSize, k);
      var runLen := runs[k].clusterCount * clusterSize;
      if runLen >= U64_LIMIT || streamPos + runLen >= U64_LIMIT {
        return None;
      }
      if logical < streamPos + runLen {
        PlaceByRun(runs, clusterSize, k, logical);
        var within := logical - streamPos;
        if runs[k].lcn.None? || runs[k].lcn.value * clusterSize + within >= U64_LIMIT {
          return None;
        }
        return Some(runs[k].lcn.value * clusterSize + within);
      }
      streamPos := streamPos + runLen;
    }
    assert runs[..|runs|] == runs;
    PlacePastEnd(runs, clusterSize, logical);
    return None;
  }

  // ---------- The trusted prefix ----------

  datatype TrustedPrefix = TrustedPrefix(len: nat, stoppedAtUntrustedRun: bool, stoppedAtSparseRun: bool)

  datatype PrefixError = ZeroClusterSize | PrefixOverflow

  ghost predicate OnSource(place: Place, sourceLen: nat) {
    place.At? && place.p < sourceLen
  }

  /** Every byte of the prefix is stored at a position of the source. */
  ghost predicate TrustedUpTo(runs: seq<RunElement>, clusterSize: nat, sourceLen: nat, len: nat) {
    forall b :: 0 <= b < len ==> OnSource(PlaceOf(runs, clusterSize, b), sourceLen)
  }

  ghost predicate AllPositive(runs: seq<RunElement>) {
    forall r :: r in runs ==> r.clusterCount > 0
  }

  /** What the prefix promises: its bytes are on the source, and where it stops early the stream shows why. */
  ghost predicate PrefixRight(prefix: TrustedPrefix, runs: seq<RunElement>, clusterSize: nat, sourceLen: nat,
                              limit: nat)
  {
    && prefix.len <= limit && TrustedUpTo(runs, clusterSize, sourceLen, prefix.len)
    && (prefix.stoppedAtUntrustedRun <==> prefix.len < limit)
    && (prefix.stoppedAtSparseRun ==> prefix.stoppedAtUntrustedRun)
    && (AllPositive(runs) ==>
          (prefix.stoppedAtSparseRun <==> prefix.len < limit && PlaceOf(runs, clusterSize, prefix.len) == Hole))
    && (AllPositive(runs) && prefix.stoppedAtUntrustedRun && !prefix.stoppedAtSparseRun ==>
          PlaceOf(runs, clusterSize, prefix.len) == Beyond ||
            LeavesSource(runs, clusterSize, sourceLen, prefix.len, limit))
  }

  /** The run that starts at `from` has a wanted byte past the end of the source. */
  ghost predicate LeavesSource(runs: seq<RunElement>, clusterSize: nat, sourceLen: nat, from: nat, limit: nat) {
    exists k: nat, b: nat :: k < |runs| && RunBytes(runs[..k], clusterSize) == from &&
      RunHas(runs, clusterSize, k, b) && b < limit &&
      PastSource(PlaceOf(runs, clusterSize, b), sourceLen)
  }

  ghost predicate RunHas(runs: seq<RunElement>, clusterSize: nat, k: nat, b: nat)
    requires k < |runs|
  {
    RunBytes(runs[..k], clusterSize) <= b < RunBytes(runs[..k + 1], clusterSize)
  }

  /** `trusted_physical_stream_prefix_len`. */
  method TrustedPrefixLen(runs: seq<RunElement>, clusterSize: nat, sourceLen: nat, dataSize: nat, initializedSize: nat)
    returns (r: Result<TrustedPrefix, PrefixError>)
    ensures r.Ok? ==> PrefixRight(r.value, runs, clusterSize, sourceLen, Min(dataSize, initializedSize))
    ensures r == Err(ZeroClusterSize) <==> clusterSize == 0
    ensures r == Err(PrefixOverflow) ==> !Expressible(runs, clusterSize)
  {
    hide PlaceOf, PrefixRight, TrustedUpTo;
    if clusterSize == 0 {
      return Err(ZeroClusterSize);
    }
    var limit := Min(dataSize, initializedSize);
    var trusted: nat := 0;
    NothingTrusted(runs, clusterSize, sourceLen);
    for k := 0 to |runs|
      invariant trusted <= limit
      invariant trusted < limit ==> trusted == RunBytes(runs[..k], clusterSize)
      invariant TrustedUpTo(runs, clusterSize, sourceLen, trusted)
    {
      if trusted < limit {
        RunBytesStep(runs, clusterSize, k);
        hide RunBytes;
        var runLen := runs[k].clusterCount * clusterSize;
        if runLen >= U64_LIMIT {
          return Err(PrefixOverflow);
        }
        var take := Min(runLen, limit - trusted);
        if runs[k].lcn.None? {
          StopsAtHole(runs, clusterSize, k, trusted, sourceLen, limit);
          return Ok(TrustedPrefix(trusted, true, true));
        }
        var physicalStart := runs[k].lcn.value * clusterSize;
        if physicalStart >= U64_LIMIT || physicalStart + take >= U64_LIMIT {
          return Err(PrefixOverflow);
        }
        if physicalStart + take > sourceLen {
          StopsPastSource(runs, clusterSize, k, trusted, take, sourceLen, limit);
          return Ok(TrustedPrefix(trusted, true, false));
        }
        TrustMore(runs, clusterSize, k, trusted, take, sourceLen);
        trusted := trusted + take;
      }
    }
    assert runs[..|runs|] == runs;
    TrustedToEnd(runs, clusterSize, trusted, sourceLen, limit);
    return Ok(TrustedPrefix(trusted, trusted < limit, false));
  }

  lemma NothingTrusted(runs: seq<RunElement>, clusterSize: nat, sourceLen: nat)
    ensures TrustedUpTo(runs, clusterSize, sourceLen, 0)
  {
  }

  lemma TrustMore(runs: seq<RunElement>, clusterSize: nat, k: nat, trusted: nat, take: nat, sourceLen: nat)
    requires k < |runs| && TrustedUpTo(runs, clusterSize, sourceLen, trusted) && runs[k].lcn.Some?
    requires trusted == RunBytes(runs[..k], clusterSize) && trusted + take <= RunBytes(runs[..k + 1], clusterSize)
    requires runs[k].lcn.value * clusterSize + take <= sourceLen
    ensures TrustedUpTo(runs, clusterSize, sourceLen, trusted + take)
  {
    RunPlaces(runs, clusterSize, k, trusted, take);
    hide PlaceOf, RunBytes;
  }

  lemma StopsAtHole(runs: seq<RunElement>, clusterSize: nat, k: nat, trusted: nat, sourceLen: nat, limit: nat)
    requires k < |runs| && TrustedUpTo(runs, clusterSize, sourceLen, trusted) && runs[k].lcn.None? && clusterSize > 0
    requires trusted == RunBytes(runs[..k], clusterSize) && trusted < limit
    ensures PrefixRight(TrustedPrefix(trusted, true, true), runs, clusterSize, sourceLen, limit)
  {
    if AllPositive(runs) {
      RunBytesStep(runs, clusterSize, k);
      ProductOrder(1, runs[k].clusterCount, clusterSize);
      PlaceByRun(runs, clusterSize, k, trusted);
    }
  }

  /** A run that leaves the source within the wanted bytes leaves it at the last of them. */
  lemma StopsPastSource(runs: seq<RunElement>, clusterSize: nat, k: nat, trusted: nat, take: nat, sourceLen: nat,
                        limit: nat)
    requires k < |runs| && TrustedUpTo(runs, clusterSize, sourceLen, trusted) && runs[k].lcn.Some? && clusterSize > 0
    requires trusted == RunBytes(runs[..k], clusterSize) && trusted < limit
    requires take == Min(runs[k].clusterCount * clusterSize, limit - trusted)
    requires runs[k].lcn.value * clusterSize + take > sourceLen
    ensures PrefixRight(TrustedPrefix(trusted, true, false), runs, clusterSize, sourceLen, limit)
  {
    if AllPositive(runs) {
      RunBytesStep(runs, clusterSize, k);
      ProductOrder(1, runs[k].clusterCount, clusterSize);
      PlaceByRun(runs, clusterSize, k, trusted);
      PlaceByRun(runs, clusterSize, k, trusted + take - 1);
      assert PastSource(PlaceOf(runs, clusterSize, trusted + take - 1), sourceLen);
      assert RunHas(runs, clusterSize, k, trusted + take - 1);
    }
  }

  lemma TrustedToEnd(runs: seq<RunElement>, clusterSize: nat, trusted: nat, sourceLen: nat, limit: nat)
    requires TrustedUpTo(runs, clusterSize, sourceLen, trusted) && trusted <= limit
    requires trusted < limit ==> trusted == RunBytes(runs, clusterSize)
    ensures PrefixRight(TrustedPrefix(trusted, trusted < limit, false), runs, clusterSize, sourceLen, limit)
  {
    if trusted < limit {
      PlacePastEnd(runs, clusterSize, trusted);
    }
  }

  ghost predicate PastSource(place: Place, sourceLen: nat) {
    place.At? && place.p >= sourceLen
  }

  lemma {:induction false} PlacedIsMapped(runs: seq<RunElement>, clusterSize: nat, b: nat)
    requires PlaceOf(runs, clusterSize, b) != Beyond
    ensures b < RunBytes(runs, clusterSize)
  {
  }

  ghost predicate FailsAt(source: Source, place: Place) {
    place.At? && place.p in source.bad
  }

  /**
   * Inside the trusted prefix a read meets no hole and no end: only an unreadable byte can make it fail, and it
   * returns the bytes there.
   */
  lemma InsideTrusted(source: Source, runs: seq<RunElement>, clusterSize: nat, len: nat, offset: nat, n: nat)
    requires TrustedUpTo(runs, clusterSize, |source.data|, len) && offset + n <= len
    ensures n > 0 ==> offset + n <= RunBytes(runs, clusterSize)
    ensures StreamOk(source, runs, clusterSize, offset, n) <==>
        forall b: nat :: offset <= b < offset + n ==> !FailsAt(source, PlaceOf(runs, clusterSize, b))
    ensures forall b: nat :: offset <= b < offset + n ==>
        OnSource(PlaceOf(runs, clusterSize, b), |source.data|) &&
        StreamBytes(source, runs, clusterSize, offset, n)[b - offset] == source.ByteAt(PlaceOf(runs, clusterSize, b).p)
  {
    hide PlaceOf, RunBytes;
    if n > 0 {
      assert OnSource(PlaceOf(runs, clusterSize, offset + n - 1), |source.data|);
      PlacedIsMapped(runs, clusterSize, offset + n - 1);
    }
    forall b: nat | offset <= b < offset + n
      ensures OnSource(PlaceOf(runs, clusterSize, b), |source.data|)
      ensures Served(source, PlaceOf(runs, clusterSize, b)) <==> !FailsAt(source, PlaceOf(runs, clusterSize, b))
      ensures StreamBytes(source, runs, clusterSize, offset, n)[b - offset]
        == source.ByteAt(PlaceOf(runs, clusterSize, b).p)
    {
      assert StreamBytes(source, runs, clusterSize, offset, n)[b - offset]
        == ServedByte(source, PlaceOf(runs, clusterSize, offset + (b - offset)));
    }
  }

  // ---------- Records, batched and single ----------

  ghost function RecordAt(source: Source, runs: seq<RunElement>, clusterSize: nat, recordSize: nat,
                          j: nat): Option<seq<Byte>>
  {
    if StreamOk(source, runs, clusterSize, j * recordSize, recordSize)
    then Some(StreamBytes(source, runs, clusterSize, j * recordSize, recordSize))
    else None
  }

  /** A readable batch holds exactly its records. */
  lemma BatchHolds(source: Source, runs: seq<RunElement>, clusterSize: nat, recordSize: nat, first: nat, count: nat,
                   j: nat)
    requires j < count && StreamOk(source, runs, clusterSize, first * recordSize, count * recordSize)
    ensures j * recordSize + recordSize <= count * recordSize
    ensures var batch := StreamBytes(source, runs, clusterSize, first * recordSize, count * recordSize);
      RecordAt(source, runs, clusterSize, recordSize, first + j)
        == Some(batch[j * recordSize..j * recordSize + recordSize])
  {
    hide PlaceOf;
    ProductOrder(j, count, recordSize);
    Distribute(first, j, recordSize);
    var offset, at := first * recordSize, (first + j) * recordSize;
    var batch := StreamBytes(source, runs, clusterSize, offset, count * recordSize);
    var single := StreamBytes(source, runs, clusterSize, at, recordSize);
    forall b: nat | at <= b < at + recordSize
      ensures Served(source, PlaceOf(runs, clusterSize, b))
    {
      assert offset <= b < offset + count * recordSize;
    }
    forall i: nat | i < recordSize
      ensures single[i] == batch[j * recordSize + i]
    {
      assert at + i == offset + (j * recordSize + i);
    }
    assert single == batch[j * recordSize..j * recordSize + recordSize];
    assert StreamOk(source, runs, clusterSize, at, recordSize);
  }

  /** One batch of the scan: a single read split into records, or record by record after a failure. */
  method ReadBatch(source: Source, runs: seq<RunElement>, clusterSize: nat, recordSize: nat, first: nat, count: nat)
    returns (records: seq<Option<seq<Byte>>>)
    requires |source.data| < U64_LIMIT && Expressible(runs, clusterSize) && (first + count) * recordSize < U64_LIMIT
    ensures |records| == count
    ensures forall j :: 0 <= j < count ==> records[j] == RecordAt(source, runs, clusterSize, recordSize, first + j)
  {
    hide PlaceOf, RunBytes, StreamOk, StreamBytes, Expressible, Overflows, RecordAt;
    Distribute(first, count, recordSize);
    ExpressibleNeverOverflows(runs, clusterSize, first * recordSize, count * recordSize);
    var batch := ReadStreamRange(source, runs, clusterSize, first * recordSize, count * recordSize);
    if batch.Ok? {
      records := CutBatch(source, runs, clusterSize, recordSize, first, count, batch.value);
    } else {
      records := ReadSingles(source, runs, clusterSize, recordSize, first, count);
    }
  }

  /** A readable batch, cut into its records. */
  method CutBatch(ghost source: Source, ghost runs: seq<RunElement>, ghost clusterSize: nat, recordSize: nat,
                  ghost first: nat, count: nat, batch: seq<Byte>)
    returns (records: seq<Option<seq<Byte>>>)
    requires StreamOk(source, runs, clusterSize, first * recordSize, count * recordSize)
    requires batch == StreamBytes(source, runs, clusterSize, first * recordSize, count * recordSize)
    ensures |records| == count
    ensures forall j :: 0 <= j < count ==> records[j] == RecordAt(source, runs, clusterSize, recordSize, first + j)
  {
    hide StreamOk, StreamBytes, RecordAt;
    records := [];
    for j := 0 to count
      invariant |records| == j
      invariant forall i :: 0 <= i < j ==> records[i] == RecordAt(source, runs, clusterSize, recordSize, first + i)
    {
      BatchHolds(source, runs, clusterSize, recordSize, first, count, j);
      records := records + [Some(batch[j * recordSize..j * recordSize + recordSize])];
    }
  }

  /** Record by record, after a failed batch. */
  method ReadSingles(source: Source, runs: seq<RunElement>, clusterSize: nat, recordSize: nat, first: nat, count: nat)
    returns (records: seq<Option<seq<Byte>>>)
    requires |source.data| < U64_LIMIT && Expressible(runs, clusterSize) && (first + count) * recordSize < U64_LIMIT
    ensures |records| == count
    ensures forall j :: 0 <= j < count ==> records[j] == RecordAt(source, runs, clusterSize, recordSize, first + j)
  {
    hide RecordAt, Expressible;
    records := [];
    for j := 0 to count
      invariant |records| == j
      invariant forall i :: 0 <= i < j ==> records[i] == RecordAt(source, runs, clusterSize, recordSize, first + i)
    {
      var single := ReadSingle(source, runs, clusterSize, recordSize, first + count, first + j);
      records := records + [single];
    }
  }

  method ReadSingle(source: Source, runs: seq<RunElement>, clusterSize: nat, recordSize: nat, ghost total: nat, j: nat)
    returns (record: Option<seq<Byte>>)
    requires |source.data| < U64_LIMIT && Expressible(runs, clusterSize) && total * recordSize < U64_LIMIT && j < total
    ensures record == RecordAt(source, runs, clusterSize, recordSize, j)
  {
    hide PlaceOf, RunBytes, StreamOk, StreamBytes, Expressible, Overflows;
    ProductOrder(j, total, recordSize);
    ExpressibleNeverOverflows(runs, clusterSize, j * recordSize, recordSize);
    var single := ReadStreamRange(source, runs, clusterSize, j * recordSize, recordSize);
    record := if single.Ok? then Some(single.value) else None;
  }

  /** The whole scan: the records seen do not depend on how they are batched. */
  method ReadRecords(source: Source, runs: seq<RunElement>, clusterSize: nat, recordSize: nat, recordCount: nat,
                     perBatch: nat)
    returns (records: seq<Option<seq<Byte>>>)
    requires |source.data| < U64_LIMIT && perBatch > 0
    requires Expressible(runs, clusterSize) && recordCount * recordSize < U64_LIMIT
    ensures |records| == recordCount
    ensures forall j :: 0 <= j < recordCount ==> records[j] == RecordAt(source, runs, clusterSize, recordSize, j)
  {
    hide RecordAt, Expressible;
    records := [];
    while |records| < recordCount
      invariant |records| <= recordCount
      invariant forall j :: 0 <= j < |records| ==> records[j] == RecordAt(source, runs, clusterSize, recordSize, j)
    {
      var first := |records|;
      var count := Min(recordCount - first, perBatch);
      ProductOrder(first + count, recordCount, recordSize);
      var batch := ReadBatch(source, runs, clusterSize, recordSize, first, count);
      records := records + batch;
      assert forall j :: first <= j < first + count ==> records[j] == batch[j - first];
    }
  }
}
