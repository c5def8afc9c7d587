/** The file allocation table, chain walking, and extents from clusters (crates/fs-fat/src/fat.rs). */
module FatChain {
  import opened Common
  import opened Arithmetic
  import opened Candidates

  datatype FatVariant = Fat12 | Fat16 | Fat32

  datatype FatEntry = Free | Next(cluster: nat) | EndOfChain | Bad | Reserved

  datatype FatTable = FatTable(variant: FatVariant, raw: seq<Byte>, clusterCount: nat) {
    function RawEntry(c: nat): Option<nat> {
      match variant
      case Fat12 =>
        var off := c + c / 2;
        if off + 1 >= |raw| then None
        else
          var v := FromLE(raw[off..off + 2]);
          Some(if c % 2 == 0 then v % 0x1000 else v / 16)
      case Fat16 =>
        if 2 * c + 1 >= |raw| then None else Some(FromLE(raw[2 * c..2 * c + 2]))
      case Fat32 =>
        if 4 * c + 4 > |raw| then None else Some(FromLE(raw[4 * c..4 * c + 4]) % 0x1000_0000)
    }

    function BadMark(): nat {
      match variant
      case Fat12 => 0x0FF7
      case Fat16 => 0xFFF7
      case Fat32 => 0x0FFF_FFF7
    }

    predicate InRange(c: nat) {
      2 <= c < clusterCount + 2
    }

    function EntryOf(c: nat): Option<FatEntry> {
      if c >= clusterCount + 2 || RawEntry(c).None? then None
      else
        var v := RawEntry(c).value;
        Some(
          if v == 0 then Free
          else if v == BadMark() then Bad
          else if v > BadMark() then EndOfChain
          else if v == 1 then Reserved
          else Next(v))
    }
  }

  // ---------- Chains ----------

  /** A list of in-range clusters from `start`, each entry naming the next. */
  ghost predicate Linked(table: FatTable, chain: seq<nat>, start: nat) {
    && (chain != [] ==> chain[0] == start)
    && (forall i :: 0 <= i < |chain| ==> table.InRange(chain[i]))
    && forall i :: 0 < i < |chain| ==> table.EntryOf(chain[i - 1]) == Some(Next(chain[i]))
  }

  ghost predicate Distinct(chain: seq<nat>) {
    forall i, j :: 0 <= i < j < |chain| ==> chain[i] != chain[j]
  }

  /** Following entries from the start leads to an end-of-chain mark. */
  ghost predicate ReachesEnd(table: FatTable, start: nat) {
    exists path :: EndingPath(table, path, start)
  }

  ghost predicate EndingPath(table: FatTable, path: seq<nat>, start: nat) {
    path != [] && Linked(table, path, start) && table.EntryOf(path[|path| - 1]) == Some(EndOfChain)
  }

  /** A set that no entry leaves, and that holds no end mark. */
  ghost predicate Trapped(table: FatTable, chain: seq<nat>, start: nat) {
    && (table.InRange(start) ==> start in chain)
    && forall c :: c in chain ==> table.EntryOf(c) != Some(EndOfChain) && StaysIn(table, chain, c)
  }

  ghost predicate StaysIn(table: FatTable, chain: seq<nat>, c: nat) {
    var e := table.EntryOf(c);
    e.Some? && e.value.Next? && table.InRange(e.value.cluster) ==> e.value.cluster in chain
  }

  lemma {:induction false} PathTrapped(table: FatTable, chain: seq<nat>, start: nat, path: seq<nat>, i: nat)
    requires Trapped(table, chain, start) && Linked(table, path, start) && i < |path|
    ensures path[i] in chain
  {
    hide FatTable.EntryOf;
    if i > 0 {
      PathTrapped(table, chain, start, path, i - 1);
      assert StaysIn(table, chain, path[i - 1]);
    }
  }

  lemma TrappedNeverEnds(table: FatTable, chain: seq<nat>, start: nat)
    requires Trapped(table, chain, start)
    ensures !ReachesEnd(table, start)
  {
    hide FatTable.EntryOf;
    forall path | path != [] && Linked(table, path, start)
      ensures !EndingPath(table, path, start)
    {
      PathTrapped(table, chain, start, path, |path| - 1);
    }
  }

  ghost function Elements(chain: seq<nat>): (s: set<nat>)
    ensures forall c :: c in s <==> c in chain
  {
    if chain == [] then {}
    else
      assert chain == chain[..|chain| - 1] + [chain[|chain| - 1]];
      Elements(chain[..|chain| - 1]) + {chain[|chain| - 1]}
  }

  ghost function AllClusters(n: nat): (s: set<nat>)
    ensures |s| == n && forall c: nat :: c in s <==> 2 <= c < n + 2
  {
    if n == 0 then {} else AllClusters(n - 1) + {n + 1}
  }

  lemma {:induction false} DistinctSize(chain: seq<nat>)
    requires Distinct(chain)
    ensures |Elements(chain)| == |chain|
  {
    if chain != [] {
      var rest, last := chain[..|chain| - 1], chain[|chain| - 1];
      assert chain == rest + [last];
      DistinctSize(rest);
      assert last !in rest;
    }
  }

  lemma SmallerSubset(a: set<nat>, b: set<nat>)
    requires a < b
    ensures |a| < |b|
  {
    var rest := b - a;
    assert b == a + rest && rest != {};
  }

  /** As many distinct clusters as the volume has: all of them. */
  lemma AllVisited(table: FatTable, chain: seq<nat>)
    requires Distinct(chain) && (forall i :: 0 <= i < |chain| ==> table.InRange(chain[i]))
    requires |chain| == table.clusterCount
    ensures forall c: nat :: table.InRange(c) ==> c in chain
  {
    var visited, all := Elements(chain), AllClusters(table.clusterCount);
    DistinctSize(chain);
    assert visited <= all;
    if visited != all {
      SmallerSubset(visited, all);
    }
    forall c: nat | table.InRange(c)
      ensures c in chain
    {
      assert c in all;
    }
  }

  /** The walk stands before `current`, the entry of the last cluster taken. */
  ghost predicate Walking(table: FatTable, chain: seq<nat>, start: nat, current: nat) {
    && Linked(table, chain, start) && Distinct(chain)
    && (if chain == [] then current == start else table.EntryOf(chain[|chain| - 1]) == Some(Next(current)))
  }

  /** Every cluster of a walk but the last names the one after it. */
  lemma WalkTrapped(table: FatTable, chain: seq<nat>, start: nat, current: nat)
    requires Walking(table, chain, start, current)
    requires table.InRange(current) ==> current in chain
    ensures Trapped(table, chain, start)
  {
    hide FatTable.EntryOf;
    forall c | c in chain
      ensures table.EntryOf(c) != Some(EndOfChain) && StaysIn(table, chain, c)
    {
      var i :| 0 <= i < |chain| && chain[i] == c;
      if i + 1 < |chain| {
        assert table.EntryOf(chain[i + 1 - 1]) == Some(Next(chain[i + 1]));
      }
    }
  }

  lemma DeadEndTrapped(table: FatTable, chain: seq<nat>, start: nat)
    requires Linked(table, chain, start) && chain != []
    requires var e := table.EntryOf(chain[|chain| - 1]); e.None? || (!e.value.Next? && !e.value.EndOfChain?)
    ensures Trapped(table, chain, start)
  {
    hide FatTable.EntryOf;
    forall c | c in chain
      ensures table.EntryOf(c) != Some(EndOfChain) && StaysIn(table, chain, c)
    {
      var i :| 0 <= i < |chain| && chain[i] == c;
      if i + 1 < |chain| {
        assert table.EntryOf(chain[i + 1 - 1]) == Some(Next(chain[i + 1]));
      }
    }
  }

  /** Every duplicate-free walk within the limit is a beginning of this one. */
  ghost predicate Longest(table: FatTable, chain: seq<nat>, start: nat, limit: nat) {
    forall other :: Linked(table, other, start) && Distinct(other) && |other| <= limit ==> other <= chain
  }

  /** The cluster a walk would take next. */
  ghost predicate NextOf(table: FatTable, chain: seq<nat>, start: nat, c: nat) {
    if chain == [] then c == start else table.EntryOf(chain[|chain| - 1]) == Some(Next(c))
  }

  /** Two walks from one start agree as far as both go. */
  lemma {:induction false} WalksAgree(table: FatTable, a: seq<nat>, b: seq<nat>, start: nat, i: nat)
    requires Linked(table, a, start) && Linked(table, b, start) && i < |a| && i < |b|
    ensures a[i] == b[i]
  {
    hide FatTable.EntryOf;
    if i > 0 {
      WalksAgree(table, a, b, start, i - 1);
    }
  }

  /** A longer duplicate-free walk goes on to a new cluster. */
  lemma GoesOn(table: FatTable, chain: seq<nat>, other: seq<nat>, start: nat)
    requires Linked(table, other, start) && Distinct(other) && |other| > |chain|
    requires forall i :: 0 <= i < |chain| ==> other[i] == chain[i]
    ensures var c := other[|chain|]; NextOf(table, chain, start, c) && table.InRange(c) && c !in chain
  {
    hide FatTable.EntryOf, FatTable.InRange;
    assert |chain| > 0 ==> table.EntryOf(other[|chain| - 1]) == Some(Next(other[|chain|]));
  }

  /** A walk that is full or cannot go on is the longest. */
  lemma StuckIsLongest(table: FatTable, chain: seq<nat>, start: nat, limit: nat)
    requires Linked(table, chain, start)
    requires |chain| == limit || forall c :: NextOf(table, chain, start, c) && table.InRange(c) ==> c in chain
    ensures Longest(table, chain, start, limit)
  {
    hide FatTable.EntryOf, FatTable.InRange;
    forall other | Linked(table, other, start) && Distinct(other) && |other| <= limit
      ensures other <= chain
    {
      forall i | 0 <= i < |other| && i < |chain|
        ensures other[i] == chain[i]
      {
        WalksAgree(table, other, chain, start, i);
      }
      if |other| > |chain| {
        GoesOn(table, chain, other, start);
      }
    }
  }

  /** Following entries from one cluster twice on the way to the end is impossible. */
  lemma {:induction false} EndingRepeats(table: FatTable, path: seq<nat>, start: nat, i: nat, j: nat)
    requires EndingPath(table, path, start) && i < j < |path| && path[i] == path[j]
    ensures false
    decreases |path| - j
  {
    hide FatTable.EntryOf, FatTable.InRange;
    assert table.EntryOf(path[i + 1 - 1]) == Some(Next(path[i + 1]));
    if j + 1 < |path| {
      assert table.EntryOf(path[j + 1 - 1]) == Some(Next(path[j + 1]));
      EndingRepeats(table, path, start, i + 1, j + 1);
    }
  }

  lemma EndingFits(table: FatTable, path: seq<nat>, start: nat)
    requires EndingPath(table, path, start)
    ensures Distinct(path) && |path| <= table.clusterCount
  {
    hide FatTable.EntryOf;
    forall i, j | 0 <= i < j < |path|
      ensures path[i] != path[j]
    {
      if path[i] == path[j] {
        EndingRepeats(table, path, start, i, j);
      }
    }
    var all := AllClusters(table.clusterCount);
    DistinctSize(path);
    assert Elements(path) <= all;
    if Elements(path) != all {
      SmallerSubset(Elements(path), all);
    }
  }

  /** Any path to the end within the limit is this list. */
  ghost predicate OnlyEnding(table: FatTable, chain: seq<nat>, start: nat, maxClusters: nat) {
    forall path :: EndingPath(table, path, start) && |path| <= maxClusters ==> path == chain
  }

  lemma NoEndInside(table: FatTable, chain: seq<nat>, start: nat)
    requires Linked(table, chain, start)
    ensures forall i :: 0 <= i < |chain| - 1 ==> table.EntryOf(chain[i]) != Some(EndOfChain)
  {
    forall i | 0 <= i < |chain| - 1
      ensures table.EntryOf(chain[i]) != Some(EndOfChain)
    {
      assert table.EntryOf(chain[i + 1 - 1]) == Some(Next(chain[i + 1]));
    }
  }

  lemma LongestDecides(table: FatTable, chain: seq<nat>, start: nat, maxClusters: nat)
    requires Linked(table, chain, start) && Longest(table, chain, start, Min(maxClusters, table.clusterCount))
    ensures OnlyEnding(table, chain, start, maxClusters)
  {
    hide FatTable.EntryOf, FatTable.InRange;
    forall path | EndingPath(table, path, start) && |path| <= maxClusters
      ensures path == chain
    {
      EndingFits(table, path, start);
      NoEndInside(table, chain, start);
      assert path <= chain && path[|path| - 1] == chain[|path| - 1];
    }
  }

  /** A walk that goes on has not ended. */
  lemma WalkingOn(table: FatTable, chain: seq<nat>, start: nat, current: nat)
    requires Walking(table, chain, start, current)
    ensures !EndingPath(table, chain, start)
  {
  }

  /**
   * `chain`: a duplicate-free linked list of in-range clusters, complete exactly when it ends in an end mark. It is the
   * path from the start to an end mark if there is one within the limit. With no tighter limit than the volume's own
   * size it is complete exactly when the start reaches an end mark. Complete or not, it is the longest such list within
   * the limit.
   */
  method Chain(table: FatTable, start: nat, maxClusters: nat) returns (clusters: seq<nat>, complete: bool)
    ensures Linked(table, clusters, start) && Distinct(clusters) && |clusters| <= Min(maxClusters, table.clusterCount)
    ensures Longest(table, clusters, start, Min(maxClusters, table.clusterCount))
    ensures complete <==> EndingPath(table, clusters, start)
    ensures OnlyEnding(table, clusters, start, maxClusters)
    ensures maxClusters >= table.clusterCount ==> (complete <==> ReachesEnd(table, start))
    ensures !complete && |clusters| < Min(maxClusters, table.clusterCount) ==> !ReachesEnd(table, start)
  {
    hide FatTable.EntryOf, Longest, ReachesEnd, OnlyEnding;
    clusters, complete := [], false;
    var visited: set<nat> := {};
    var current: nat := start;
    var limit := Min(maxClusters, table.clusterCount);
    for k := 0 to limit
      invariant |clusters| == k && !complete && Walking(table, clusters, start, current)
      invariant forall c :: c in visited <==> c in clusters
    {
      if current < 2 || current >= table.clusterCount + 2 || current in visited {
        WalkTrapped(table, clusters, start, current);
        TrappedNeverEnds(table, clusters, start);
        StuckIsLongest(table, clusters, start, limit);
        WalkingOn(table, clusters, start, current);
        LongestDecides(table, clusters, start, maxClusters);
        return;
      }
      visited := visited + {current};
      clusters := clusters + [current];
      var entry := table.EntryOf(current);
      if entry.Some? && entry.value.Next? {
        current := entry.value.cluster;
      } else {
        StuckIsLongest(table, clusters, start, limit);
        LongestDecides(table, clusters, start, maxClusters);
        if entry == Some(EndOfChain) {
          EndReached(table, clusters, start);
          return clusters, true;
        }
        DeadEndTrapped(table, clusters, start);
        TrappedNeverEnds(table, clusters, start);
        return;
      }
    }
    StuckIsLongest(table, clusters, start, limit);
    WalkingOn(table, clusters, start, current);
    LongestDecides(table, clusters, start, maxClusters);
    if limit == table.clusterCount {
      AllVisited(table, clusters);
      WalkTrapped(table, clusters, start, current);
      TrappedNeverEnds(table, clusters, start);
    }
  }

  /** The table alone decides the chain, and hence the clusters of a file. */
  lemma ChainUnique(table: FatTable, a: seq<nat>, b: seq<nat>, start: nat, limit: nat)
    requires Linked(table, a, start) && Distinct(a) && |a| <= limit && Longest(table, a, start, limit)
    requires Linked(table, b, start) && Distinct(b) && |b| <= limit && Longest(table, b, start, limit)
    ensures a == b
  {
    hide Linked, Distinct;
    assert a <= b && b <= a;
  }

  lemma EndReached(table: FatTable, path: seq<nat>, start: nat)
    requires EndingPath(table, path, start)
    ensures ReachesEnd(table, start)
  {
  }

  // ---------- Extents of a file ----------

  datatype Volume = Volume(table: FatTable, clusterSize: nat, dataOffset: nat) {
    function ClusterOffset(c: nat): Option<nat> {
      if !table.InRange(c) then None else Some(dataOffset + (c - 2) * clusterSize)
    }
  }

  /** Where byte `b` of a file stored in these clusters lies. */
  function FileByte(volume: Volume, clusters: seq<nat>, b: nat): nat
    requires volume.clusterSize > 0 && b / volume.clusterSize < |clusters|
    requires volume.table.InRange(clusters[b / volume.clusterSize])
  {
    volume.ClusterOffset(clusters[b / volume.clusterSize]).value + b % volume.clusterSize
  }

  /** A retained chain is the file's own; after an assumed one, only free clusters are still its own. */
  function ClusterAvailability(table: FatTable, c: nat, inferred: bool): Availability {
    if table.EntryOf(c) == Some(Free) || !inferred then FreeInSnapshot else CurrentlyAllocated
  }

  ghost predicate AllInRange(volume: Volume, clusters: seq<nat>) {
    volume.clusterSize > 0 && forall i :: 0 <= i < |clusters| ==> volume.table.InRange(clusters[i])
  }

  /** The extent says of byte `b` what the clusters say. */
  ghost predicate ByteRight(volume: Volume, clusters: seq<nat>, inferred: bool, e: ExtentRun, b: nat)
    requires AllInRange(volume, clusters)
  {
    b / volume.clusterSize < |clusters| && e.logical <= b &&
    e.physical == Some(FileByte(volume, clusters, b) - (b - e.logical)) &&
    e.availability == ClusterAvailability(volume.table, clusters[b / volume.clusterSize], inferred)
  }

  ghost predicate ExtentRight(volume: Volume, clusters: seq<nat>, inferred: bool, e: ExtentRun)
    requires AllInRange(volume, clusters)
  {
    e.len > 0 && e.physical.Some? && forall b: nat :: e.Covers(b) ==> ByteRight(volume, clusters, inferred, e, b)
  }

  /** Laid end to end from 0 to `end`, and cut only where the run of source bytes or its availability changes. */
  ghost predicate Laid(extents: seq<ExtentRun>, end: nat) {
    && (if extents == [] then end == 0 else extents[0].logical == 0 && extents[|extents| - 1].End() == end)
    && forall k :: 0 < k < |extents| ==>
         extents[k].logical == extents[k - 1].End() && !Mergeable(extents[k - 1], extents[k])
  }

  predicate Mergeable(a: ExtentRun, b: ExtentRun) {
    a.availability == b.availability && a.physical.Some? && b.physical.Some? &&
      a.physical.value + a.len == b.physical.value
  }

  ghost predicate GroupedTo(volume: Volume, clusters: seq<nat>, inferred: bool, extents: seq<ExtentRun>, end: nat)
    requires AllInRange(volume, clusters)
  {
    Laid(extents, end) && forall e :: e in extents ==> ExtentRight(volume, clusters, inferred, e)
  }

  /** One turn of the grouping loop. */
  function AddPiece(extents: seq<ExtentRun>, piece: ExtentRun): seq<ExtentRun> {
    if extents != [] && Mergeable(extents[|extents| - 1], piece) then
      var last := extents[|extents| - 1];
      extents[..|extents| - 1] + [last.(len := last.len + piece.len)]
    else extents + [piece]
  }

  lemma GrownRight(volume: Volume, clusters: seq<nat>, inferred: bool, last: ExtentRun, piece: ExtentRun)
    requires AllInRange(volume, clusters) && Mergeable(last, piece) && last.End() == piece.logical
    requires ExtentRight(volume, clusters, inferred, last) && ExtentRight(volume, clusters, inferred, piece)
    ensures ExtentRight(volume, clusters, inferred, last.(len := last.len + piece.len))
  {
    hide FileByte, ClusterAvailability, AllInRange, FatTable.InRange;
    var grown := last.(len := last.len + piece.len);
    forall b: nat | grown.Covers(b)
      ensures ByteRight(volume, clusters, inferred, grown, b)
    {
      if last.Covers(b) {
        assert ByteRight(volume, clusters, inferred, last, b);
      } else {
        assert ByteRight(volume, clusters, inferred, piece, b);
      }
    }
  }

  lemma AddPieceKeeps(volume: Volume, clusters: seq<nat>, inferred: bool, extents: seq<ExtentRun>, end: nat,
                      piece: ExtentRun)
    requires AllInRange(volume, clusters) && GroupedTo(volume, clusters, inferred, extents, end)
    requires piece.logical == end && ExtentRight(volume, clusters, inferred, piece)
    ensures GroupedTo(volume, clusters, inferred, AddPiece(extents, piece), piece.End())
  {
    hide FileByte, ClusterAvailability, FatTable.InRange, FatTable.EntryOf;
    var after := AddPiece(extents, piece);
    if extents != [] && Mergeable(extents[|extents| - 1], piece) {
      var rest, last := extents[..|extents| - 1], extents[|extents| - 1];
      var grown := last.(len := last.len + piece.len);
      assert extents == rest + [last] && after == rest + [grown];
      GrownRight(volume, clusters, inferred, last, piece);
      hide ExtentRight;
      assert forall e :: e in after ==> e in extents || e == grown;
    } else {
      assert forall e :: e in after ==> e in extents || e == piece;
    }
  }

  /** The piece for cluster `k`. */
  lemma PieceRight(volume: Volume, clusters: seq<nat>, inferred: bool, k: nat, take: nat)
    requires AllInRange(volume, clusters) && k < |clusters| && 0 < take <= volume.clusterSize
    ensures ExtentRight(volume, clusters, inferred,
                        ExtentRun(k * volume.clusterSize, volume.ClusterOffset(clusters[k]), take,
                                  ClusterAvailability(volume.table, clusters[k], inferred)))
  {
    hide ClusterAvailability;
    var cs := volume.clusterSize;
    var piece :=
      ExtentRun(k * cs, volume.ClusterOffset(clusters[k]), take,
                ClusterAvailability(volume.table, clusters[k], inferred));
    forall b: nat | piece.Covers(b)
      ensures ByteRight(volume, clusters, inferred, piece, b)
    {
      assert cs * k == k * cs;
      DivisionUnique(b, cs, k, b - k * cs);
    }
  }

  /** `build_file_extents` after the clusters are chosen: bytes keep their clusters, runs are maximal. */
  method GroupClusters(volume: Volume, clusters: seq<nat>, inferred: bool, size: nat) returns (extents: seq<ExtentRun>)
    requires AllInRange(volume, clusters)
    ensures GroupedTo(volume, clusters, inferred, extents, Min(size, |clusters| * volume.clusterSize))
  {
    hide GroupedTo, ExtentRight, FatTable.InRange;
    extents := [];
    var logical: nat := 0;
    NothingGrouped(volume, clusters, inferred);
    for k := 0 to |clusters|
      invariant logical == Min(size, k * volume.clusterSize)
      invariant GroupedTo(volume, clusters, inferred, extents, logical)
    {
      ProductOrder(k + 1, |clusters|, volume.clusterSize);
      Distribute(k, 1, volume.clusterSize);
      if logical >= size {
        return;
      }
      var take := Min(volume.clusterSize, size - logical);
      PieceRight(volume, clusters, inferred, k, take);
      var piece :=
        ExtentRun(logical, volume.ClusterOffset(clusters[k]), take,
                  ClusterAvailability(volume.table, clusters[k], inferred));
      AddPieceKeeps(volume, clusters, inferred, extents, logical, piece);
      extents := AddPiece(extents, piece);
      logical := logical + take;
    }
  }

  lemma NothingGrouped(volume: Volume, clusters: seq<nat>, inferred: bool)
    requires AllInRange(volume, clusters)
    ensures GroupedTo(volume, clusters, inferred, [], 0)
  {
  }

  datatype FileExtents = FileExtents(extents: seq<ExtentRun>, inferred: bool)

  /** The clusters assumed after the chain was cleared: consecutive ones, as far as the volume goes. */
  function Consecutive(table: FatTable, first: nat, n: nat): (clusters: seq<nat>)
    requires table.InRange(first)
    ensures |clusters| == Min(n, table.clusterCount + 2 - first)
    ensures forall i :: 0 <= i < |clusters| ==> clusters[i] == first + i
  {
    seq(Min(n, table.clusterCount + 2 - first), i => first + i)
  }

  /**
   * Which clusters the first entry gives the file: its retained chain, consecutive ones after a cleared chain, or
   * none.
   */
  ghost predicate ClustersRight(volume: Volume, first: nat, size: nat, clusters: seq<nat>, inferred: bool)
    requires volume.clusterSize > 0
  {
    var needed, entry := CeilDiv(size, volume.clusterSize), volume.table.EntryOf(first);
    if size == 0 || first < 2 || entry.None? || entry.value.Bad? || entry.value.Reserved? then
      clusters == [] && !inferred
    else if entry.value.Free? then inferred && clusters == Consecutive(volume.table, first, needed)
    else
      && !inferred && Linked(volume.table, clusters, first) && Distinct(clusters)
      && |clusters| <= needed + 1
      && Longest(volume.table, clusters, first, Min(needed + 1, volume.table.clusterCount))
      && (|clusters| < Min(needed + 1, volume.table.clusterCount) ==>
            EndingPath(volume.table, clusters, first) || !ReachesEnd(volume.table, first))
  }

  /** The extents are the maximal runs of the right clusters, up to the file size. */
  ghost predicate ExtentsOf(volume: Volume, first: nat, size: nat, clusters: seq<nat>, r: FileExtents)
    requires volume.clusterSize > 0
  {
    && AllInRange(volume, clusters)
    && GroupedTo(volume, clusters, r.inferred, r.extents, Min(size, |clusters| * volume.clusterSize))
    && ClustersRight(volume, first, size, clusters, r.inferred)
  }

  /** Where a byte is stored, counting clusters from 2 at the start of the data area. */
  ghost predicate StoredAt(volume: Volume, clusters: seq<nat>, e: ExtentRun, b: nat)
    requires volume.clusterSize > 0
  {
    var k := b / volume.clusterSize;
    k < |clusters| && clusters[k] >= 2 && e.physical.Some? &&
    e.physical.value + (b - e.logical)
      == volume.dataOffset + (clusters[k] - 2) * volume.clusterSize + b % volume.clusterSize
  }

  predicate FreeAt(volume: Volume, first: nat, b: nat)
    requires volume.clusterSize > 0
  {
    volume.table.EntryOf(first + b / volume.clusterSize) == Some(Free)
  }

  /**
   * Each byte of the extents: where it is stored, and whether it is still the file's. A retained chain is never in
   * conflict; one assumed to be contiguous is, exactly where an entry is not free.
   */
  lemma ExtentBytes(volume: Volume, first: nat, size: nat, clusters: seq<nat>, r: FileExtents, e: ExtentRun, b: nat)
    requires volume.clusterSize > 0 && ExtentsOf(volume, first, size, clusters, r)
    requires e in r.extents && e.Covers(b)
    ensures StoredAt(volume, clusters, e, b)
    ensures !r.inferred ==> e.availability == FreeInSnapshot
    ensures r.inferred ==> e.availability == if FreeAt(volume, first, b) then FreeInSnapshot else CurrentlyAllocated
  {
    hide FatTable.EntryOf, Longest, Linked, ReachesEnd, EndingPath, Laid;
    assert ExtentRight(volume, clusters, r.inferred, e);
    assert ByteRight(volume, clusters, r.inferred, e, b);
  }

  /** An assumed file is one run of source bytes from its first cluster on. */
  lemma AssumedContiguous(volume: Volume, first: nat, size: nat, clusters: seq<nat>, r: FileExtents, e: ExtentRun,
                          b: nat)
    requires volume.clusterSize > 0 && ExtentsOf(volume, first, size, clusters, r) && r.inferred && first >= 2
    requires e in r.extents && e.Covers(b)
    ensures e.physical.Some? &&
      e.physical.value + (b - e.logical) == volume.dataOffset + (first - 2) * volume.clusterSize + b
  {
    hide FatTable.EntryOf, GroupedTo, AllInRange, ReachesEnd;
    ExtentBytes(volume, first, size, clusters, r, e, b);
    AssumedClusters(volume, first, size, clusters);
    ClusterSum(first, volume.clusterSize, b, clusters[b / volume.clusterSize]);
  }

  lemma AssumedClusters(volume: Volume, first: nat, size: nat, clusters: seq<nat>)
    requires volume.clusterSize > 0 && ClustersRight(volume, first, size, clusters, true)
    ensures forall k :: 0 <= k < |clusters| ==> clusters[k] == first + k
  {
    hide FatTable.EntryOf, ReachesEnd;
  }

  lemma ClusterSum(first: nat, size: nat, b: nat, cluster: nat)
    requires size > 0 && first >= 2 && cluster == first + b / size
    ensures (cluster - 2) * size + b % size == (first - 2) * size + b
  {
    var k := b / size;
    assert b == size * k + b % size;
    Distribute(first - 2, k, size);
    assert size * k == k * size;
  }

  /** `build_file_extents`. */
  method BuildFileExtents(volume: Volume, first: nat, size: nat) returns (r: FileExtents)
    requires volume.clusterSize > 0
    ensures exists clusters :: ExtentsOf(volume, first, size, clusters, r)
  {
    var table, needed := volume.table, CeilDiv(size, volume.clusterSize);
    var clusters: seq<nat>, inferred := [], false;
    if size > 0 && first >= 2 {
      match table.EntryOf(first) {
        case Some(Next(_)) =>
          var complete;
          clusters, complete := Chain(table, first, needed + 1);
        case Some(EndOfChain) =>
          var complete;
          clusters, complete := Chain(table, first, needed + 1);
        case Some(Free) =>
          clusters, inferred := Consecutive(table, first, needed), true;
        case _ =>
      }
    }
    var extents := GroupClusters(volume, clusters, inferred, size);
    r := FileExtents(extents, inferred);
    assert ExtentsOf(volume, first, size, clusters, r);
  }
}
