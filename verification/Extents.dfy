/** From a decoded data stream and the allocation bitmap to classified extents (crates/fs-ntfs/src/scan.rs). */
module Extents {
  import opened Common
  import opened Arithmetic
  import opened Allocation
  import opened Candidates
  import opened Runlist

  datatype Stream = Stream(runs: seq<RunElement>, clusterSize: nat, dataSize: nat, initializedSize: nat)

  datatype StreamKind = ResidentValue(valueOffset: nat, len: nat) | NonResident(stream: Stream)

  datatype DataStream = DataStream(named: bool, compressed: bool, kind: StreamKind)

  // ---------- What NTFS says each byte of a non-resident stream is ----------

  function RunBytes(runs: seq<RunElement>, clusterSize: nat): nat {
    if runs == [] then 0
    else RunBytes(runs[..|runs| - 1], clusterSize) + runs[|runs| - 1].clusterCount * clusterSize
  }

  /** The byte `within` a run placed at `lcn`: readable only when its own cluster is proven free. */
  function ClusterMeaning(lcn: nat, clusterSize: nat, allocation: Option<AllocationMap>, within: int): Meaning
    requires clusterSize > 0 && within >= 0
  {
    if allocation.None? then Zero(UnknownAvailability)
    else
      match allocation.value.IsAllocated(lcn + within / clusterSize)
      case Some(false) => Physical(lcn * clusterSize + within)
      case Some(true) => Zero(AllocatedZero)
      case None => Zero(UnknownAvailability)
  }

  function RunMeaning(run: RunElement, clusterSize: nat, allocation: Option<AllocationMap>, within: int): Meaning
    requires clusterSize > 0 && within >= 0
  {
    if run.lcn.None? then Zero(SparseZero) else ClusterMeaning(run.lcn.value, clusterSize, allocation, within)
  }

  /** Ignoring the initialized size. Bytes no run maps are missing. */
  function MappedMeaning(runs: seq<RunElement>, clusterSize: nat, allocation: Option<AllocationMap>, b: nat): Meaning
    requires clusterSize > 0
  {
    if runs == [] then Zero(MissingExtent)
    else
      var start := RunBytes(runs[..|runs| - 1], clusterSize);
      var last := runs[|runs| - 1];
      if b < start then MappedMeaning(runs[..|runs| - 1], clusterSize, allocation, b)
      else if b < start + last.clusterCount * clusterSize then RunMeaning(last, clusterSize, allocation, b - start)
      else Zero(MissingExtent)
  }

  /** A mapped byte past the initialized size is a sparse zero; an unmapped one stays missing, wherever it lies. */
  function StreamMeaning(stream: Stream, allocation: Option<AllocationMap>, b: nat): Meaning
    requires stream.clusterSize > 0
  {
    if b < RunBytes(stream.runs, stream.clusterSize) && b >= stream.initializedSize then Zero(SparseZero)
    else MappedMeaning(stream.runs, stream.clusterSize, allocation, b)
  }

  lemma {:induction false} RunBytesPrefix(runs: seq<RunElement>, clusterSize: nat, k: nat)
    requires k <= |runs|
    ensures RunBytes(runs[..k], clusterSize) <= RunBytes(runs, clusterSize)
    decreases |runs|
  {
    if k < |runs| {
      var rest := runs[..|runs| - 1];
      assert rest[..k] == runs[..k];
      RunBytesPrefix(rest, clusterSize, k);
    } else {
      assert runs[..k] == runs;
    }
  }

  lemma RunBytesStep(runs: seq<RunElement>, clusterSize: nat, k: nat)
    requires k < |runs|
    ensures RunBytes(runs[..k + 1], clusterSize)
      == RunBytes(runs[..k], clusterSize) + runs[k].clusterCount * clusterSize
    ensures RunBytes(runs[..k + 1], clusterSize) <= RunBytes(runs, clusterSize)
  {
    assert runs[..k + 1][..k] == runs[..k];
    RunBytesPrefix(runs, clusterSize, k + 1);
  }

  /** The meaning of a byte is settled by the runs up to the one that maps it. */
  lemma {:induction false} MappedByPrefix(runs: seq<RunElement>, clusterSize: nat, allocation: Option<AllocationMap>,
                                          k: nat, b: nat)
    requires clusterSize > 0 && k <= |runs| && b < RunBytes(runs[..k], clusterSize)
    ensures MappedMeaning(runs, clusterSize, allocation, b) == MappedMeaning(runs[..k], clusterSize, allocation, b)
    decreases |runs|
  {
    if k < |runs| {
      var rest := runs[..|runs| - 1];
      assert rest[..k] == runs[..k];
      RunBytesPrefix(rest, clusterSize, k);
      MappedByPrefix(rest, clusterSize, allocation, k, b);
    } else {
      assert runs[..k] == runs;
    }
  }

  lemma {:induction false} Unmapped(runs: seq<RunElement>, clusterSize: nat, allocation: Option<AllocationMap>, b: nat)
    requires clusterSize > 0 && RunBytes(runs, clusterSize) <= b
    ensures MappedMeaning(runs, clusterSize, allocation, b) == Zero(MissingExtent)
  {
  }

  // ---------- Where the extents of a stream are cut ----------

  /** Byte `within` of a placed run starts a piece: the first one, and where the clusters' recorded state changes. */
  ghost predicate ClusterCut(lcn: nat, clusterSize: nat, allocation: Option<AllocationMap>, within: nat)
    requires clusterSize > 0
  {
    || within == 0
    || (allocation.Some? &&
        allocation.value.IsAllocated(lcn + within / clusterSize)
          != allocation.value.IsAllocated(lcn + (within - 1) / clusterSize))
  }

  ghost predicate RunCut(run: RunElement, clusterSize: nat, allocation: Option<AllocationMap>, within: nat)
    requires clusterSize > 0
  {
    within == 0 || (run.lcn.Some? && ClusterCut(run.lcn.value, clusterSize, allocation, within))
  }

  ghost predicate MappedCut(runs: seq<RunElement>, clusterSize: nat, allocation: Option<AllocationMap>, b: nat)
    requires clusterSize > 0
  {
    if runs == [] then false
    else
      var start := RunBytes(runs[..|runs| - 1], clusterSize);
      if b < start then MappedCut(runs[..|runs| - 1], clusterSize, allocation, b)
      else RunCut(runs[|runs| - 1], clusterSize, allocation, b - start)
  }

  /** A mapped byte starts an extent: at a run, at a change of state inside a run, and at the initialized size. */
  ghost predicate StreamCut(stream: Stream, allocation: Option<AllocationMap>, b: nat)
    requires stream.clusterSize > 0
  {
    b == stream.initializedSize || MappedCut(stream.runs, stream.clusterSize, allocation, b)
  }

  /** The number of extents below `n`. */
  ghost function CutCount(stream: Stream, allocation: Option<AllocationMap>, n: nat): nat
    requires stream.clusterSize > 0
  {
    if n == 0 then 0 else CutCount(stream, allocation, n - 1) + if StreamCut(stream, allocation, n - 1) then 1 else 0
  }

  lemma {:induction false} CutByPrefix(runs: seq<RunElement>, clusterSize: nat, allocation: Option<AllocationMap>,
                                       k: nat, b: nat)
    requires clusterSize > 0 && k <= |runs| && b < RunBytes(runs[..k], clusterSize)
    ensures MappedCut(runs, clusterSize, allocation, b) <==> MappedCut(runs[..k], clusterSize, allocation, b)
    decreases |runs|
  {
    if k < |runs| {
      var rest := runs[..|runs| - 1];
      assert rest[..k] == runs[..k];
      RunBytesPrefix(rest, clusterSize, k);
      CutByPrefix(rest, clusterSize, allocation, k, b);
    } else {
      assert runs[..k] == runs;
    }
  }

  /** Within run `i` the stream is cut where that run is. */
  lemma CutInRun(runs: seq<RunElement>, clusterSize: nat, allocation: Option<AllocationMap>, i: nat, b: nat)
    requires clusterSize > 0 && i < |runs|
    requires RunBytes(runs[..i], clusterSize) <= b < RunBytes(runs[..i + 1], clusterSize)
    ensures MappedCut(runs, clusterSize, allocation, b)
      <==> RunCut(runs[i], clusterSize, allocation, b - RunBytes(runs[..i], clusterSize))
  {
    assert runs[..i + 1][..i] == runs[..i];
    CutByPrefix(runs, clusterSize, allocation, i + 1, b);
  }

  ghost predicate StartsAt(extents: seq<ExtentRun>, x: int) {
    exists e :: e in extents && e.logical == x
  }

  lemma StartsConcat(a: seq<ExtentRun>, b: seq<ExtentRun>, x: int)
    ensures StartsAt(a + b, x) <==> StartsAt(a, x) || StartsAt(b, x)
  {
  }

  /** The pieces of a placed run start exactly where it is cut. */
  ghost predicate CutByClusters(pieces: seq<ExtentRun>, logical: nat, lcn: nat, cs: nat,
                                allocation: Option<AllocationMap>, end: int)
    requires cs > 0
  {
    forall x: int :: logical <= x < end ==> (StartsAt(pieces, x) <==> ClusterCut(lcn, cs, allocation, x - logical))
  }

  ghost predicate CutByRun(pieces: seq<ExtentRun>, stream: Stream, allocation: Option<AllocationMap>, i: nat,
                           logical: nat, end: int)
    requires stream.clusterSize > 0 && i < |stream.runs|
  {
    forall x: int :: logical <= x < end ==>
      (StartsAt(pieces, x) <==> RunCut(stream.runs[i], stream.clusterSize, allocation, x - logical))
  }

  ghost predicate CutAsMapped(extents: seq<ExtentRun>, stream: Stream, allocation: Option<AllocationMap>, end: int)
    requires stream.clusterSize > 0
  {
    forall x: int :: 0 <= x < end ==>
      (StartsAt(extents, x) <==> MappedCut(stream.runs, stream.clusterSize, allocation, x))
  }

  ghost predicate CutAsStream(extents: seq<ExtentRun>, stream: Stream, allocation: Option<AllocationMap>, end: int)
    requires stream.clusterSize > 0
  {
    forall x: int :: 0 <= x < end ==> (StartsAt(extents, x) <==> StreamCut(stream, allocation, x))
  }

  /** In a tiling, the starts inside one extent are just its own. */
  lemma {:induction false} OneStart(extents: seq<ExtentRun>, start: int, end: int, i: nat, x: int)
    requires Tiles(extents, start, end) && i < |extents| && extents[i].Covers(x)
    ensures StartsAt(extents, x) <==> x == extents[i].logical
    decreases |extents|
  {
    var rest, last := extents[..|extents| - 1], extents[|extents| - 1];
    assert extents == rest + [last];
    TilesBounds(rest, start, last.logical);
    StartsConcat(rest, [last], x);
    if i < |rest| {
      assert rest[i] in rest;
      OneStart(rest, start, last.logical, i, x);
    }
  }

  /** Extents that tile a beginning of the stream and are cut where it is are as many as its cuts. */
  lemma {:induction false} CutsCounted(extents: seq<ExtentRun>, stream: Stream, allocation: Option<AllocationMap>,
                                       end: nat)
    requires stream.clusterSize > 0 && Tiles(extents, 0, end) && CutAsStream(extents, stream, allocation, end)
    ensures |extents| == CutCount(stream, allocation, end)
    decreases |extents|
  {
    hide StreamCut;
    if extents != [] {
      var rest, last := extents[..|extents| - 1], extents[|extents| - 1];
      assert extents == rest + [last];
      TilesBounds(rest, 0, last.logical);
      forall x: int | 0 <= x < last.logical
        ensures StartsAt(rest, x) <==> StreamCut(stream, allocation, x)
      {
        StartsConcat(rest, [last], x);
      }
      CutsCounted(rest, stream, allocation, last.logical);
      forall x: int | last.logical <= x < end
        ensures StreamCut(stream, allocation, x) <==> x == last.logical
      {
        OneStart(extents, 0, end, |extents| - 1, x);
      }
      CountOneCut(stream, allocation, last.logical, end);
    }
  }

  lemma {:induction false} CountOneCut(stream: Stream, allocation: Option<AllocationMap>, lo: nat, hi: nat)
    requires stream.clusterSize > 0 && lo < hi
    requires forall x: int :: lo <= x < hi ==> (StreamCut(stream, allocation, x) <==> x == lo)
    ensures CutCount(stream, allocation, hi) == CutCount(stream, allocation, lo) + 1
    decreases hi
  {
    hide StreamCut;
    if lo + 1 < hi {
      CountOneCut(stream, allocation, lo, hi - 1);
    }
  }

  // ---------- Lists of extents ----------

  /** Nonempty extents laid end to end over `[start, end)`. */
  ghost predicate Tiles(extents: seq<ExtentRun>, start: int, end: int) {
    if extents == [] then start == end
    else
      var last := extents[|extents| - 1];
      last.len > 0 && last.End() == end && Tiles(extents[..|extents| - 1], start, last.logical)
  }

  /** Every readable extent is free space below `limit` in the source. */
  ghost predicate PhysicalWithin(extents: seq<ExtentRun>, limit: nat) {
    forall e :: e in extents && Readable(e) ==> e.availability.FreeInSnapshot? && e.physical.value + e.len <= limit
  }

  ghost predicate MappedAs(extents: seq<ExtentRun>, stream: Stream, allocation: Option<AllocationMap>)
    requires stream.clusterSize > 0
  {
    forall e, b: nat :: e in extents && e.Covers(b) ==>
      ExtentMeaning(e, b) == MappedMeaning(stream.runs, stream.clusterSize, allocation, b)
  }

  ghost predicate Means(extents: seq<ExtentRun>, stream: Stream, allocation: Option<AllocationMap>)
    requires stream.clusterSize > 0
  {
    forall e, b: nat :: e in extents && e.Covers(b) ==> ExtentMeaning(e, b) == StreamMeaning(stream, allocation, b)
  }

  lemma TilesSnoc(extents: seq<ExtentRun>, start: int, next: ExtentRun)
    requires Tiles(extents, start, next.logical) && next.len > 0
    ensures Tiles(extents + [next], start, next.End())
  {
    assert (extents + [next])[..|extents|] == extents;
  }

  lemma {:induction false} TilesConcat(a: seq<ExtentRun>, b: seq<ExtentRun>, start: int, mid: int, end: int)
    requires Tiles(a, start, mid) && Tiles(b, mid, end)
    ensures Tiles(a + b, start, end)
    decreases |b|
  {
    if b == [] {
      assert a + b == a;
    } else {
      TilesConcat(a, b[..|b| - 1], start, mid, b[|b| - 1].logical);
      assert (a + b)[..|a + b| - 1] == a + b[..|b| - 1];
    }
  }

  function GroupAvailability(status: Option<bool>): Availability {
    match status
    case Some(true) => CurrentlyAllocated
    case Some(false) => FreeInSnapshot
    case None => Unknown
  }

  /** One allocation group as an extent: clusters `[first, last)` of the run, clipped to `byteLen`. */
  function Group(logicalStart: nat, lcn: nat, cs: nat, byteLen: nat, first: nat, last: nat,
                 status: Option<bool>): ExtentRun
    requires first * cs <= Min(last * cs, byteLen)
  {
    ExtentRun(logicalStart + first * cs, Some((lcn + first) * cs), Min(last * cs, byteLen) - first * cs,
              GroupAvailability(status))
  }

  /** What one physical run turns into: readable bytes stay inside it and every byte gets its own cluster's meaning. */
  ghost predicate SplitOf(pieces: seq<ExtentRun>, logicalStart: nat, lcn: nat, byteLen: nat, cs: nat,
                          allocation: Option<AllocationMap>)
    requires cs > 0
  {
    forall e :: e in pieces ==>
      && e.logical >= logicalStart
      && (Readable(e) ==> e.availability.FreeInSnapshot? && e.physical.value + e.len <= lcn * cs + byteLen)
      && forall b: nat :: e.Covers(b) ==> ExtentMeaning(e, b) == ClusterMeaning(lcn, cs, allocation, b - logicalStart)
  }

  method SplitByAllocation(logicalStart: nat, lcn: nat, byteLen: nat, cs: nat, allocation: Option<AllocationMap>)
    returns (pieces: seq<ExtentRun>)
    requires cs > 0 && byteLen > 0
    ensures Tiles(pieces, logicalStart, logicalStart + byteLen)
    ensures SplitOf(pieces, logicalStart, lcn, byteLen, cs, allocation)
    ensures CutByClusters(pieces, logicalStart, lcn, cs, allocation, logicalStart + byteLen)
  {
    hide SplitOf, Tiles, ClusterMeaning, CutByClusters, SplitTo;
    if allocation.None? {
      OnePiece(logicalStart, lcn, byteLen, cs);
      pieces := [ExtentRun(logicalStart, Some(lcn * cs), byteLen, Unknown)];
    } else {
      pieces := SplitByBitmap(logicalStart, lcn, byteLen, cs, allocation.value);
      SplitDone(pieces, logicalStart, lcn, byteLen, cs, allocation);
    }
  }

  /** The loop over the clusters. */
  method SplitByBitmap(logicalStart: nat, lcn: nat, byteLen: nat, cs: nat, bitmap: AllocationMap)
    returns (pieces: seq<ExtentRun>)
    requires cs > 0 && byteLen > 0
    ensures SplitTo(pieces, logicalStart, lcn, byteLen, cs, Some(bitmap), CeilDiv(byteLen, cs))
  {
    StartSplit(logicalStart, lcn, byteLen, cs, Some(bitmap));
    CeilDivBounds(byteLen, cs);
    hide CeilDiv, Group, SplitTo, InState, AllocationMap.IsAllocated;
    var clusterCount := CeilDiv(byteLen, cs);
    pieces := [];
    var groupStart := 0;
    var groupStatus := bitmap.IsAllocated(lcn);
    OneInState(bitmap, lcn);
    for i := 1 to clusterCount + 1
      invariant if i <= clusterCount then groupStart < i else groupStart == clusterCount
      invariant i <= clusterCount ==> InState(bitmap, lcn + groupStart, lcn + i, groupStatus)
      invariant SplitTo(pieces, logicalStart, lcn, byteLen, cs, Some(bitmap), groupStart)
      invariant 0 < groupStart < clusterCount ==> bitmap.IsAllocated(lcn + groupStart - 1) != groupStatus
    {
      var status := if i < clusterCount then bitmap.IsAllocated(lcn + i) else None;
      if i == clusterCount || status != groupStatus {
        LastInState(bitmap, lcn + groupStart, lcn + i, groupStatus);
        pieces := FlushGroup(pieces, logicalStart, lcn, byteLen, cs, bitmap, groupStart, i, groupStatus);
        groupStart, groupStatus := i, status;
        OneInState(bitmap, lcn + i);
      } else {
        MoreInState(bitmap, lcn + groupStart, lcn + i, groupStatus);
      }
    }
  }

  lemma LastInState(bitmap: AllocationMap, from: nat, to: nat, status: Option<bool>)
    requires from < to && InState(bitmap, from, to, status)
    ensures bitmap.IsAllocated(to - 1) == status
  {
  }

  /** Clusters `[from, to)` are all recorded in one state. */
  ghost predicate InState(bitmap: AllocationMap, from: nat, to: nat, status: Option<bool>) {
    forall c :: from <= c < to ==> bitmap.IsAllocated(c) == status
  }

  lemma OneInState(bitmap: AllocationMap, c: nat)
    ensures InState(bitmap, c, c + 1, bitmap.IsAllocated(c))
  {
  }

  lemma MoreInState(bitmap: AllocationMap, from: nat, to: nat, status: Option<bool>)
    requires InState(bitmap, from, to, status) && bitmap.IsAllocated(to) == status
    ensures InState(bitmap, from, to + 1, status)
  {
  }

  /** The end of a group: its extent is added. */
  method FlushGroup(pieces: seq<ExtentRun>, logicalStart: nat, lcn: nat, byteLen: nat, cs: nat, bitmap: AllocationMap,
                    first: nat, last: nat, status: Option<bool>) returns (more: seq<ExtentRun>)
    requires cs > 0 && byteLen > 0 && first < last <= CeilDiv(byteLen, cs)
    requires InState(bitmap, lcn + first, lcn + last, status)
    requires first > 0 ==> bitmap.IsAllocated(lcn + first - 1) != status
    requires SplitTo(pieces, logicalStart, lcn, byteLen, cs, Some(bitmap), first)
    ensures SplitTo(more, logicalStart, lcn, byteLen, cs, Some(bitmap), last)
  {
    hide SplitTo, CeilDiv, AllocationMap.IsAllocated, Group;
    SplitStep(pieces, logicalStart, lcn, byteLen, cs, bitmap, first, last, status);
    more := pieces + [Group(logicalStart, lcn, cs, byteLen, first, last, status)];
  }

  /** The clusters below `first` are split. */
  ghost predicate SplitTo(pieces: seq<ExtentRun>, logicalStart: nat, lcn: nat, byteLen: nat, cs: nat,
                          allocation: Option<AllocationMap>, first: nat)
    requires cs > 0
  {
    && Tiles(pieces, logicalStart, logicalStart + Min(first * cs, byteLen))
    && SplitOf(pieces, logicalStart, lcn, byteLen, cs, allocation)
    && CutByClusters(pieces, logicalStart, lcn, cs, allocation, logicalStart + Min(first * cs, byteLen))
  }

  lemma SplitStep(pieces: seq<ExtentRun>, logicalStart: nat, lcn: nat, byteLen: nat, cs: nat, bitmap: AllocationMap,
                  first: nat, last: nat, status: Option<bool>)
    requires cs > 0 && byteLen > 0 && first < last <= CeilDiv(byteLen, cs)
    requires forall c :: lcn + first <= c < lcn + last ==> bitmap.IsAllocated(c) == status
    requires first > 0 ==> bitmap.IsAllocated(lcn + first - 1) != status
    requires SplitTo(pieces, logicalStart, lcn, byteLen, cs, Some(bitmap), first)
    ensures first * cs <= Min(last * cs, byteLen)
    ensures SplitTo(pieces + [Group(logicalStart, lcn, cs, byteLen, first, last, status)], logicalStart, lcn, byteLen,
                    cs, Some(bitmap), last)
  {
    hide SplitOf, Tiles, CeilDiv, Group, CutByClusters, AllocationMap.IsAllocated;
    GroupPiece(pieces, logicalStart, lcn, byteLen, cs, bitmap, first, last, status);
    GroupCut(pieces, logicalStart, lcn, byteLen, cs, bitmap, first, last, status);
  }

  lemma SplitDone(pieces: seq<ExtentRun>, logicalStart: nat, lcn: nat, byteLen: nat, cs: nat,
                  allocation: Option<AllocationMap>)
    requires cs > 0 && byteLen > 0
    requires SplitTo(pieces, logicalStart, lcn, byteLen, cs, allocation, CeilDiv(byteLen, cs))
    ensures Tiles(pieces, logicalStart, logicalStart + byteLen)
    ensures SplitOf(pieces, logicalStart, lcn, byteLen, cs, allocation)
    ensures CutByClusters(pieces, logicalStart, lcn, cs, allocation, logicalStart + byteLen)
  {
    CeilDivBounds(byteLen, cs);
    hide SplitOf, Tiles, CutByClusters;
  }

  lemma StartSplit(logicalStart: nat, lcn: nat, byteLen: nat, cs: nat, allocation: Option<AllocationMap>)
    requires cs > 0 && byteLen > 0
    ensures SplitTo([], logicalStart, lcn, byteLen, cs, allocation, 0)
  {
    assert 0 * cs == 0;
  }

  /** Without a bitmap a run is one piece of unknown state. */
  lemma OnePiece(logicalStart: nat, lcn: nat, byteLen: nat, cs: nat)
    requires cs > 0 && byteLen > 0
    ensures var pieces := [ExtentRun(logicalStart, Some(lcn * cs), byteLen, Unknown)];
      && Tiles(pieces, logicalStart, logicalStart + byteLen)
      && SplitOf(pieces, logicalStart, lcn, byteLen, cs, None)
      && CutByClusters(pieces, logicalStart, lcn, cs, None, logicalStart + byteLen)
  {
  }

  lemma CeilDivBounds(n: nat, d: nat)
    requires n > 0 && d > 0
    ensures CeilDiv(n, d) > 0 && (CeilDiv(n, d) - 1) * d < n <= CeilDiv(n, d) * d
  {
  }

  /** Flushing one group extends the tiling by that group and keeps every piece's meaning. */
  lemma GroupPiece(pieces: seq<ExtentRun>, logicalStart: nat, lcn: nat, byteLen: nat, cs: nat, bitmap: AllocationMap,
                   first: nat, last: nat, status: Option<bool>)
    requires cs > 0 && byteLen > 0 && first < last <= CeilDiv(byteLen, cs)
    requires forall c :: lcn + first <= c < lcn + last ==> bitmap.IsAllocated(c) == status
    requires Tiles(pieces, logicalStart, logicalStart + Min(first * cs, byteLen))
    requires SplitOf(pieces, logicalStart, lcn, byteLen, cs, Some(bitmap))
    ensures first * cs <= Min(last * cs, byteLen)
    ensures var more := pieces + [Group(logicalStart, lcn, cs, byteLen, first, last, status)];
      && Tiles(more, logicalStart, logicalStart + Min(last * cs, byteLen))
      && SplitOf(more, logicalStart, lcn, byteLen, cs, Some(bitmap))
  {
    GroupStart(first, last, byteLen, cs);
    hide CeilDiv, Tiles, ClusterMeaning, SplitOf;
    var piece := Group(logicalStart, lcn, cs, byteLen, first, last, status);
    TilesSnoc(pieces, logicalStart, piece);
    forall b: nat | piece.Covers(b)
      ensures ExtentMeaning(piece, b) == ClusterMeaning(lcn, cs, Some(bitmap), b - logicalStart)
    {
      GroupMeans(logicalStart, lcn, cs, byteLen, bitmap, first, last, status, b);
    }
    Distribute(lcn, first, cs);
    SplitSnoc(pieces, piece, logicalStart, lcn, byteLen, cs, Some(bitmap));
  }

  lemma GroupMeans(logicalStart: nat, lcn: nat, cs: nat, byteLen: nat, bitmap: AllocationMap, first: nat, last: nat,
                   status: Option<bool>, b: nat)
    requires cs > 0 && first < last && first * cs <= Min(last * cs, byteLen)
    requires forall c :: lcn + first <= c < lcn + last ==> bitmap.IsAllocated(c) == status
    requires Group(logicalStart, lcn, cs, byteLen, first, last, status).Covers(b)
    ensures ExtentMeaning(Group(logicalStart, lcn, cs, byteLen, first, last, status), b)
      == ClusterMeaning(lcn, cs, Some(bitmap), b - logicalStart)
  {
    hide AllocationMap.IsAllocated;
    BlockOf(b - logicalStart, cs, first, last - first);
    assert bitmap.IsAllocated(lcn + (b - logicalStart) / cs) == status;
    Distribute(lcn, first, cs);
  }

  lemma SplitSnoc(pieces: seq<ExtentRun>, piece: ExtentRun, logicalStart: nat, lcn: nat, byteLen: nat, cs: nat,
                  allocation: Option<AllocationMap>)
    requires cs > 0 && SplitOf(pieces, logicalStart, lcn, byteLen, cs, allocation) && piece.logical >= logicalStart
    requires Readable(piece) ==>
      piece.availability.FreeInSnapshot? && piece.physical.value + piece.len <= lcn * cs + byteLen
    requires forall b: nat :: piece.Covers(b) ==>
      ExtentMeaning(piece, b) == ClusterMeaning(lcn, cs, allocation, b - logicalStart)
    ensures SplitOf(pieces + [piece], logicalStart, lcn, byteLen, cs, allocation)
  {
    hide ClusterMeaning, ExtentMeaning;
  }

  /** Flushing one group adds its start, which is a cut, and no other byte of it is one. */
  lemma GroupCut(pieces: seq<ExtentRun>, logicalStart: nat, lcn: nat, byteLen: nat, cs: nat, bitmap: AllocationMap,
                 first: nat, last: nat, status: Option<bool>)
    requires cs > 0 && byteLen > 0 && first < last <= CeilDiv(byteLen, cs)
    requires forall c :: lcn + first <= c < lcn + last ==> bitmap.IsAllocated(c) == status
    requires first > 0 ==> bitmap.IsAllocated(lcn + first - 1) != status
    requires Tiles(pieces, logicalStart, logicalStart + Min(first * cs, byteLen))
    requires CutByClusters(pieces, logicalStart, lcn, cs, Some(bitmap), logicalStart + Min(first * cs, byteLen))
    ensures first * cs <= Min(last * cs, byteLen)
    ensures CutByClusters(pieces + [Group(logicalStart, lcn, cs, byteLen, first, last, status)], logicalStart, lcn, cs,
                          Some(bitmap), logicalStart + Min(last * cs, byteLen))
  {
    GroupStart(first, last, byteLen, cs);
    var piece := Group(logicalStart, lcn, cs, byteLen, first, last, status);
    TilesBounds(pieces, logicalStart, logicalStart + Min(first * cs, byteLen));
    hide Tiles, CeilDiv;
    forall x: int | logicalStart <= x < logicalStart + Min(last * cs, byteLen)
      ensures StartsAt(pieces + [piece], x) <==> ClusterCut(lcn, cs, Some(bitmap), x - logicalStart)
    {
      StartsConcat(pieces, [piece], x);
      if x >= piece.logical {
        CutInGroup(lcn, cs, bitmap, first, last, status, x - logicalStart);
      }
    }
  }

  lemma GroupStart(first: nat, last: nat, byteLen: nat, cs: nat)
    requires cs > 0 && byteLen > 0 && first < last <= CeilDiv(byteLen, cs)
    ensures first * cs < byteLen && first * cs < Min(last * cs, byteLen)
  {
    CeilDivBounds(byteLen, cs);
    ProductOrder(first, CeilDiv(byteLen, cs) - 1, cs);
    ProductOrder(first, last, cs);
  }

  /** Inside a group of clusters in one state only its first byte is a cut. */
  lemma CutInGroup(lcn: nat, cs: nat, bitmap: AllocationMap, first: nat, last: nat, status: Option<bool>, within: nat)
    requires cs > 0 && first < last && first * cs <= within < last * cs
    requires forall c :: lcn + first <= c < lcn + last ==> bitmap.IsAllocated(c) == status
    requires first > 0 ==> bitmap.IsAllocated(lcn + first - 1) != status
    ensures ClusterCut(lcn, cs, Some(bitmap), within) <==> within == first * cs
  {
    BlockOf(within, cs, first, last - first);
    assert bitmap.IsAllocated(lcn + within / cs) == status;
    if within > first * cs {
      BlockOf(within - 1, cs, first, last - first);
      assert bitmap.IsAllocated(lcn + (within - 1) / cs) == status;
    } else if within > 0 {
      assert first > 0;
      Distribute(first - 1, 1, cs);
      BlockOf(within - 1, cs, first - 1, 1);
    }
  }

  // ---------- Building and clipping the extent list ----------

  lemma {:induction false} TilesBounds(extents: seq<ExtentRun>, start: int, end: int)
    requires Tiles(extents, start, end)
    ensures start <= end
    ensures forall e :: e in extents ==> start <= e.logical && e.len > 0 && e.End() <= end
    decreases |extents|
  {
    if extents != [] {
      var rest, last := extents[..|extents| - 1], extents[|extents| - 1];
      TilesBounds(rest, start, last.logical);
      assert extents == rest + [last];
    }
  }

  /** Within run `i` the stream means what that run means. */
  lemma MappedInRun(runs: seq<RunElement>, clusterSize: nat, allocation: Option<AllocationMap>, i: nat, b: nat)
    requires clusterSize > 0 && i < |runs|
    requires RunBytes(runs[..i], clusterSize) <= b < RunBytes(runs[..i + 1], clusterSize)
    ensures MappedMeaning(runs, clusterSize, allocation, b)
      == RunMeaning(runs[i], clusterSize, allocation, b - RunBytes(runs[..i], clusterSize))
  {
    assert runs[..i + 1][..i] == runs[..i];
    MappedByPrefix(runs, clusterSize, allocation, i + 1, b);
  }

  /** The part of the data that the runs map. */
  function MappedSize(stream: Stream): nat {
    Min(stream.dataSize, RunBytes(stream.runs, stream.clusterSize))
  }

  /** The extents tile the mapped part of the file, mean what NTFS says, and read inside the volume. */
  ghost predicate Describes(extents: seq<ExtentRun>, stream: Stream, allocation: Option<AllocationMap>, limit: nat)
    requires stream.clusterSize > 0
  {
    && Tiles(extents, 0, MappedSize(stream))
    && Means(extents, stream, allocation)
    && PhysicalWithin(extents, limit)
  }

  ghost predicate RunsWithin(stream: Stream, totalClusters: nat) {
    forall r :: r in stream.runs ==>
      r.clusterCount > 0 && (r.lcn.Some? ==> r.lcn.value + r.clusterCount <= totalClusters)
  }

  /** What run `i` of the stream contributes from file offset `logical` on. */
  ghost predicate PiecesOfRun(pieces: seq<ExtentRun>, stream: Stream, allocation: Option<AllocationMap>, i: nat,
                              logical: nat, take: nat)
    requires stream.clusterSize > 0 && i < |stream.runs|
  {
    forall e :: e in pieces ==>
      && e.logical >= logical
      && (Readable(e) ==>
            && e.availability.FreeInSnapshot? && stream.runs[i].lcn.Some?
            && e.physical.value + e.len <= stream.runs[i].lcn.value * stream.clusterSize + take)
      && forall b: nat :: e.Covers(b) ==>
           ExtentMeaning(e, b) == RunMeaning(stream.runs[i], stream.clusterSize, allocation, b - logical)
  }

  /** The pieces of run `i`, added to what earlier runs produced. */
  lemma AddRun(extents: seq<ExtentRun>, pieces: seq<ExtentRun>, stream: Stream, allocation: Option<AllocationMap>,
               totalClusters: nat, i: nat, logical: nat, take: nat)
    requires stream.clusterSize > 0 && i < |stream.runs| && RunsWithin(stream, totalClusters)
    requires logical == RunBytes(stream.runs[..i], stream.clusterSize)
    requires 0 < take <= stream.runs[i].clusterCount * stream.clusterSize
    requires Tiles(pieces, logical, logical + take) && PiecesOfRun(pieces, stream, allocation, i, logical, take)
    requires MappedAs(extents, stream, allocation) && PhysicalWithin(extents, totalClusters * stream.clusterSize)
    ensures MappedAs(extents + pieces, stream, allocation)
    ensures PhysicalWithin(extents + pieces, totalClusters * stream.clusterSize)
  {
    TilesBounds(pieces, logical, logical + take);
    hide Tiles, ExtentMeaning, RunMeaning, MappedMeaning;
    var run, cs := stream.runs[i], stream.clusterSize;
    assert run in stream.runs && stream.runs[..i + 1][..i] == stream.runs[..i];
    forall e, b: nat | e in pieces && e.Covers(b)
      ensures ExtentMeaning(e, b) == MappedMeaning(stream.runs, cs, allocation, b)
    {
      MappedInRun(stream.runs, cs, allocation, i, b);
    }
    if run.lcn.Some? {
      RunFits(run.lcn.value, run.clusterCount, cs, take, totalClusters);
    }
  }

  lemma AddRunCuts(extents: seq<ExtentRun>, pieces: seq<ExtentRun>, stream: Stream, allocation: Option<AllocationMap>,
                   i: nat, logical: nat, take: nat)
    requires stream.clusterSize > 0 && i < |stream.runs| && logical == RunBytes(stream.runs[..i], stream.clusterSize)
    requires logical + take <= RunBytes(stream.runs[..i + 1], stream.clusterSize)
    requires Tiles(extents, 0, logical) && Tiles(pieces, logical, logical + take)
    requires CutAsMapped(extents, stream, allocation, logical)
    requires CutByRun(pieces, stream, allocation, i, logical, logical + take)
    ensures CutAsMapped(extents + pieces, stream, allocation, logical + take)
  {
    TilesBounds(extents, 0, logical);
    TilesBounds(pieces, logical, logical + take);
    hide Tiles, RunCut, MappedCut, RunBytes;
    forall x: int | 0 <= x < logical + take
      ensures StartsAt(extents + pieces, x) <==> MappedCut(stream.runs, stream.clusterSize, allocation, x)
    {
      StartsConcat(extents, pieces, x);
      if x >= logical {
        CutInRun(stream.runs, stream.clusterSize, allocation, i, x);
      }
    }
  }

  lemma RunFits(lcn: nat, count: nat, cs: nat, take: nat, totalClusters: nat)
    requires lcn + count <= totalClusters && take <= count * cs
    ensures lcn * cs + take <= totalClusters * cs
  {
    ProductOrder(lcn + count, totalClusters, cs);
    assert (lcn + count) * cs == lcn * cs + count * cs;
  }

  /** One run's share of the stream: all of it, or what is left of the data. */
  lemma RunShare(stream: Stream, totalClusters: nat, i: nat, logical: nat)
    requires stream.clusterSize > 0 && RunsWithin(stream, totalClusters) && i < |stream.runs|
    requires logical == Min(stream.dataSize, RunBytes(stream.runs[..i], stream.clusterSize))
    requires logical < stream.dataSize
    ensures var take := Min(stream.runs[i].clusterCount * stream.clusterSize, stream.dataSize - logical);
      && take > 0 && logical == RunBytes(stream.runs[..i], stream.clusterSize)
      && logical + take == Min(stream.dataSize, RunBytes(stream.runs[..i + 1], stream.clusterSize))
      && logical + take <= RunBytes(stream.runs[..i + 1], stream.clusterSize)
  {
    hide RunBytes;
    assert stream.runs[i] in stream.runs;
    RunBytesStep(stream.runs, stream.clusterSize, i);
    ProductOrder(1, stream.runs[i].clusterCount, stream.clusterSize);
  }

  /** The pieces of one run's share of the stream: one hole, or the run cut at allocation changes. */
  method PiecesFor(stream: Stream, allocation: Option<AllocationMap>, i: nat, logical: nat, take: nat)
    returns (pieces: seq<ExtentRun>)
    requires stream.clusterSize > 0 && i < |stream.runs| && take > 0
    ensures Tiles(pieces, logical, logical + take) && PiecesOfRun(pieces, stream, allocation, i, logical, take)
    ensures CutByRun(pieces, stream, allocation, i, logical, logical + take)
  {
    hide Tiles, SplitOf, PiecesOfRun;
    var run := stream.runs[i];
    if run.lcn.None? {
      pieces := [ExtentRun(logical, None, take, Sparse)];
      SparsePiece(stream, allocation, i, logical, take);
    } else {
      pieces := SplitByAllocation(logical, run.lcn.value, take, stream.clusterSize, allocation);
      AllocatedPieces(pieces, stream, allocation, i, logical, take);
    }
  }

  method BuildMapped(stream: Stream, allocation: Option<AllocationMap>, ghost totalClusters: nat)
    returns (extents: seq<ExtentRun>)
    requires stream.clusterSize > 0 && RunsWithin(stream, totalClusters)
    ensures Tiles(extents, 0, Min(stream.dataSize, RunBytes(stream.runs, stream.clusterSize)))
    ensures MappedAs(extents, stream, allocation) && PhysicalWithin(extents, totalClusters * stream.clusterSize)
    ensures CutAsMapped(extents, stream, allocation, Min(stream.dataSize, RunBytes(stream.runs, stream.clusterSize)))
  {
    hide Tiles, MappedAs, PhysicalWithin, SplitOf, PiecesOfRun, RunBytes, CutAsMapped, CutByRun;
    NoExtents(stream, allocation, totalClusters * stream.clusterSize);
    extents := [];
    var logical := 0;
    var i := 0;
    while i < |stream.runs| && logical < stream.dataSize
      invariant 0 <= i <= |stream.runs|
      invariant logical == Min(stream.dataSize, RunBytes(stream.runs[..i], stream.clusterSize))
      invariant Tiles(extents, 0, logical) && MappedAs(extents, stream, allocation)
      invariant PhysicalWithin(extents, totalClusters * stream.clusterSize)
      invariant CutAsMapped(extents, stream, allocation, logical)
    {
      RunShare(stream, totalClusters, i, logical);
      var take := Min(stream.runs[i].clusterCount * stream.clusterSize, stream.dataSize - logical);
      var pieces := PiecesFor(stream, allocation, i, logical, take);
      TilesConcat(extents, pieces, 0, logical, logical + take);
      AddRunCuts(extents, pieces, stream, allocation, i, logical, take);
      AddRun(extents, pieces, stream, allocation, totalClusters, i, logical, take);
      extents := extents + pieces;
      logical := logical + take;
      i := i + 1;
    }
    RunBytesPrefix(stream.runs, stream.clusterSize, i);
    assert i == |stream.runs| ==> stream.runs[..i] == stream.runs;
  }

  lemma NoExtents(stream: Stream, allocation: Option<AllocationMap>, limit: nat)
    requires stream.clusterSize > 0
    ensures Tiles([], 0, 0) && MappedAs([], stream, allocation) && PhysicalWithin([], limit)
    ensures RunBytes(stream.runs[..0], stream.clusterSize) == 0 && CutAsMapped([], stream, allocation, 0)
  {
  }

  lemma SparsePiece(stream: Stream, allocation: Option<AllocationMap>, i: nat, logical: nat, take: nat)
    requires stream.clusterSize > 0 && i < |stream.runs| && stream.runs[i].lcn.None? && take > 0
    ensures Tiles([ExtentRun(logical, None, take, Sparse)], logical, logical + take)
    ensures PiecesOfRun([ExtentRun(logical, None, take, Sparse)], stream, allocation, i, logical, take)
  {
  }

  lemma AllocatedPieces(pieces: seq<ExtentRun>, stream: Stream, allocation: Option<AllocationMap>, i: nat,
                        logical: nat, take: nat)
    requires stream.clusterSize > 0 && i < |stream.runs| && stream.runs[i].lcn.Some?
    requires SplitOf(pieces, logical, stream.runs[i].lcn.value, take, stream.clusterSize, allocation)
    ensures PiecesOfRun(pieces, stream, allocation, i, logical, take)
  {
  }

  /** In a tiling each extent starts where the previous one ended. */
  lemma {:induction false} TilesStep(extents: seq<ExtentRun>, end: int, i: nat)
    requires Tiles(extents, 0, end) && i < |extents|
    ensures extents[i].len > 0 && extents[i].End() <= end
    ensures i == 0 ==> extents[i].logical == 0
    ensures i + 1 < |extents| ==> extents[i].End() == extents[i + 1].logical
    ensures i + 1 == |extents| ==> extents[i].End() == end
    decreases |extents|
  {
    TilesBounds(extents, 0, end);
    var rest := extents[..|extents| - 1];
    if i < |rest| {
      TilesStep(rest, extents[|rest|].logical, i);
    } else if i == 0 {
      assert rest == [];
    }
  }

  /** One extent after clipping: the initialized part, then the rest as a sparse range. */
  function Clip(extent: ExtentRun, initializedEnd: nat): seq<ExtentRun> {
    (if extent.logical < Min(extent.End(), initializedEnd)
     then [extent.(len := Min(extent.End(), initializedEnd) - extent.logical)] else [])
    + (if Max(extent.logical, initializedEnd) < extent.End()
       then [ExtentRun(Max(extent.logical, initializedEnd), None, extent.End() - Max(extent.logical, initializedEnd),
                       Sparse)] else [])
  }

  lemma ClipTiles(extent: ExtentRun, initializedEnd: nat)
    requires extent.len > 0
    ensures Tiles(Clip(extent, initializedEnd), extent.logical, extent.End())
  {
    var clipped := Clip(extent, initializedEnd);
    if |clipped| == 2 {
      assert clipped[..1] == [clipped[0]];
    }
  }

  lemma ClipMeans(extent: ExtentRun, stream: Stream, allocation: Option<AllocationMap>, limit: nat)
    requires stream.clusterSize > 0
    requires extent.End() <= Min(stream.dataSize, RunBytes(stream.runs, stream.clusterSize))
    requires forall b: nat :: extent.Covers(b) ==>
      ExtentMeaning(extent, b) == MappedMeaning(stream.runs, stream.clusterSize, allocation, b)
    requires Readable(extent) ==> extent.availability.FreeInSnapshot? && extent.physical.value + extent.len <= limit
    ensures Means(Clip(extent, Min(stream.initializedSize, stream.dataSize)), stream, allocation)
    ensures PhysicalWithin(Clip(extent, Min(stream.initializedSize, stream.dataSize)), limit)
  {
    hide MappedMeaning;
    forall e, b: nat | e in Clip(extent, Min(stream.initializedSize, stream.dataSize)) && e.Covers(b)
      ensures ExtentMeaning(e, b) == StreamMeaning(stream, allocation, b)
    {
      assert extent.Covers(b);
    }
  }

  /** Clipping adds a start at the initialized size and keeps all others. */
  lemma ClipCuts(split: seq<ExtentRun>, extent: ExtentRun, stream: Stream, allocation: Option<AllocationMap>)
    requires stream.clusterSize > 0 && extent.len > 0 && extent.End() <= stream.dataSize
    requires Tiles(split, 0, extent.logical) && CutAsStream(split, stream, allocation, extent.logical)
    requires forall x: int :: extent.Covers(x) ==>
      (MappedCut(stream.runs, stream.clusterSize, allocation, x) <==> x == extent.logical)
    ensures CutAsStream(split + Clip(extent, Min(stream.initializedSize, stream.dataSize)), stream, allocation,
                        extent.End())
  {
    TilesBounds(split, 0, extent.logical);
    hide Tiles, MappedCut;
    var clipped := Clip(extent, Min(stream.initializedSize, stream.dataSize));
    forall x: int | 0 <= x < extent.End()
      ensures StartsAt(split + clipped, x) <==> StreamCut(stream, allocation, x)
    {
      StartsConcat(split, clipped, x);
      ClipStarts(extent, Min(stream.initializedSize, stream.dataSize), x);
    }
  }

  lemma ClipStarts(extent: ExtentRun, initializedEnd: nat, x: int)
    requires extent.len > 0
    ensures StartsAt(Clip(extent, initializedEnd), x)
      <==> x == extent.logical || (x == initializedEnd && extent.Covers(x))
  {
    var clipped := Clip(extent, initializedEnd);
    if x == extent.logical {
      assert clipped[0].logical == x;
    } else if x == initializedEnd && extent.Covers(x) {
      assert clipped[1].logical == x;
    }
  }

  lemma ClipOne(split: seq<ExtentRun>, extent: ExtentRun, stream: Stream, allocation: Option<AllocationMap>, limit: nat)
    requires stream.clusterSize > 0 && extent.len > 0
    requires extent.End() <= Min(stream.dataSize, RunBytes(stream.runs, stream.clusterSize))
    requires Tiles(split, 0, extent.logical) && Means(split, stream, allocation) && PhysicalWithin(split, limit)
    requires forall b: nat :: extent.Covers(b) ==>
      ExtentMeaning(extent, b) == MappedMeaning(stream.runs, stream.clusterSize, allocation, b)
    requires Readable(extent) ==> extent.availability.FreeInSnapshot? && extent.physical.value + extent.len <= limit
    ensures var more := split + Clip(extent, Min(stream.initializedSize, stream.dataSize));
      Tiles(more, 0, extent.End()) && Means(more, stream, allocation) && PhysicalWithin(more, limit)
  {
    var initializedEnd := Min(stream.initializedSize, stream.dataSize);
    ClipTiles(extent, initializedEnd);
    ClipMeans(extent, stream, allocation, limit);
    hide Tiles, Clip, ExtentMeaning, StreamMeaning, MappedMeaning;
    TilesConcat(split, Clip(extent, initializedEnd), 0, extent.logical, extent.End());
  }

  /** Clips to the data size and turns every mapped byte past the initialized boundary into a sparse range. */
  method SplitAtInitializedSize(extents: seq<ExtentRun>, initializedSize: nat, dataSize: nat,
                                ghost stream: Stream, ghost allocation: Option<AllocationMap>, ghost limit: nat)
    returns (split: seq<ExtentRun>)
    requires stream.clusterSize > 0 && dataSize < U64_LIMIT
    requires stream.initializedSize == initializedSize && stream.dataSize == dataSize
    requires Tiles(extents, 0, Min(dataSize, RunBytes(stream.runs, stream.clusterSize)))
    requires MappedAs(extents, stream, allocation) && PhysicalWithin(extents, limit)
    requires CutAsMapped(extents, stream, allocation, Min(dataSize, RunBytes(stream.runs, stream.clusterSize)))
    ensures Describes(split, stream, allocation, limit)
    ensures CutAsStream(split, stream, allocation, Min(dataSize, RunBytes(stream.runs, stream.clusterSize)))
  {
    hide Tiles, Means, CutAsStream, CutAsMapped, MappedCut;
    var initializedEnd := Min(initializedSize, dataSize);
    split := [];
    ghost var total := Min(dataSize, RunBytes(stream.runs, stream.clusterSize));
    ghost var cursor := 0;
    NothingSplit(extents, total, stream, allocation);
    for i := 0 to |extents|
      invariant if i < |extents| then cursor == extents[i].logical else cursor == total
      invariant Tiles(split, 0, cursor) && Means(split, stream, allocation) && PhysicalWithin(split, limit)
      invariant CutAsStream(split, stream, allocation, cursor)
    {
      TilesStep(extents, total, i);
      StartsInside(extents, stream, allocation, total, i);
      var extent := extents[i];
      assert extent in extents;
      var start := extent.logical;
      var end := Min(Min(start + extent.len, U64_LIMIT - 1), dataSize);
      if start >= end {
        continue;
      }
      ghost var before := split;
      var initializedExtentEnd := Min(end, initializedEnd);
      if start < initializedExtentEnd {
        split := split + [extent.(len := initializedExtentEnd - start)];
      }
      var tailStart := Max(start, initializedEnd);
      if tailStart < end {
        split := split + [ExtentRun(tailStart, None, end - tailStart, Sparse)];
      }
      assert split == before + Clip(extent, initializedEnd);
      ClipOne(before, extent, stream, allocation, limit);
      ClipCuts(before, extent, stream, allocation);
      cursor := extent.End();
    }
  }

  lemma NothingSplit(extents: seq<ExtentRun>, total: int, stream: Stream, allocation: Option<AllocationMap>)
    requires stream.clusterSize > 0 && Tiles(extents, 0, total)
    ensures if extents == [] then total == 0 else extents[0].logical == 0
    ensures Tiles([], 0, 0) && Means([], stream, allocation) && CutAsStream([], stream, allocation, 0)
  {
    if extents != [] {
      TilesStep(extents, total, 0);
    }
  }

  lemma StartsInside(extents: seq<ExtentRun>, stream: Stream, allocation: Option<AllocationMap>, total: int, i: nat)
    requires stream.clusterSize > 0 && Tiles(extents, 0, total) && CutAsMapped(extents, stream, allocation, total)
    requires i < |extents|
    ensures forall x: int :: extents[i].Covers(x) ==>
      x >= 0 && (MappedCut(stream.runs, stream.clusterSize, allocation, x) <==> x == extents[i].logical)
  {
    TilesStep(extents, total, i);
    hide MappedCut;
    forall x: int | extents[i].Covers(x)
      ensures MappedCut(stream.runs, stream.clusterSize, allocation, x) <==> x == extents[i].logical
    {
      OneStart(extents, 0, total, i, x);
    }
  }

  /** What the runlist decoder and the boot sector guarantee of a stream. */
  ghost predicate WellFormed(s: DataStream, totalClusters: nat) {
    s.kind.NonResident? ==>
      s.kind.stream.clusterSize > 0 && s.kind.stream.dataSize < U64_LIMIT && RunsWithin(s.kind.stream, totalClusters)
  }

  /**
   * `build_extents`: the main stream's size and classified extents. Compressed content yields no extents; a resident
   * value is one extent inside its own record.
   */
  method BuildExtents(streams: seq<DataStream>, recordOffset: nat, allocation: Option<AllocationMap>,
                      ghost totalClusters: nat)
    returns (size: nat, extents: seq<ExtentRun>)
    requires forall s :: s in streams ==> WellFormed(s, totalClusters)
    ensures match MainStream(streams)
      case None => size == 0 && extents == []
      case Some(main) =>
        if main.kind.ResidentValue? then
          size == main.kind.len && extents == if main.compressed then [] else
            [ExtentRun(0, Some(recordOffset + main.kind.valueOffset), main.kind.len, Resident)]
        else
          var stream := main.kind.stream;
          && size == stream.dataSize && stream.clusterSize > 0
          && if main.compressed then extents == []
              else
                && Describes(extents, stream, allocation, totalClusters * stream.clusterSize)
                && |extents| == CutCount(stream, allocation, MappedSize(stream))
  {
    var i := 0;
    while i < |streams| && streams[i].named
      invariant 0 <= i <= |streams| && MainStream(streams) == MainStream(streams[i..])
    {
      assert streams[i..][1..] == streams[i + 1..];
      i := i + 1;
    }
    if i == |streams| {
      return 0, [];
    }
    var main := streams[i];
    assert main in streams;
    match main.kind
    case ResidentValue(valueOffset, len) =>
      size := len;
      extents := if main.compressed then [] else [ExtentRun(0, Some(recordOffset + valueOffset), len, Resident)];
    case NonResident(stream) =>
      size := stream.dataSize;
      if main.compressed {
        extents := [];
      } else {
        var mapped := BuildMapped(stream, allocation, totalClusters);
        extents := SplitAtInitializedSize(mapped, stream.initializedSize, stream.dataSize, stream, allocation,
                                          totalClusters * stream.clusterSize);
        CutsCounted(extents, stream, allocation, MappedSize(stream));
      }
  }

  /** The first unnamed stream, the only one recovered. */
  function MainStream(streams: seq<DataStream>): Option<DataStream> {
    if streams == [] then None
    else if !streams[0].named then Some(streams[0])
    else MainStream(streams[1..])
  }
}
