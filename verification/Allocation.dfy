/** Cluster allocation bitmap and the iterator over its free runs (crates/fs-common/src/lib.rs). */
module Allocation {
  import opened Common

  datatype FreeRun = FreeRun(start: nat, count: nat)

  function Bit(value: Byte, k: nat): bool
    requires k < 8
  {
    (value / [1, 2, 4, 8, 16, 32, 64, 128][k]) % 2 == 1
  }

  datatype AllocationMap = AllocationMap(bits: seq<Byte>, clusterCount: U64) {
    function KnownClusterCount(): nat {
      Min(clusterCount, Min(|bits| * 8, U64_LIMIT - 1))
    }

    /** `None` when the cluster is outside the map or its bit was not retained. */
    function IsAllocated(cluster: nat): Option<bool> {
      if cluster >= clusterCount || cluster / 8 >= |bits| then None
      else Some(Bit(bits[cluster / 8], cluster % 8))
    }

    predicate IsFree(cluster: int) {
      0 <= cluster && IsAllocated(cluster) == Some(false)
    }

    predicate IsComplete() {
      KnownClusterCount() >= clusterCount
    }
  }

  /** Present-and-clear bits only, and not extendable in either direction. */
  ghost predicate MaximalFree(bitmap: AllocationMap, run: FreeRun) {
    && run.count > 0
    && (forall c :: run.start <= c < run.start + run.count ==> bitmap.IsFree(c))
    && !bitmap.IsFree(run.start - 1)
    && !bitmap.IsFree(run.start + run.count)
  }

  /** A cluster has a known state exactly below the known count. */
  lemma KnownIsRetained(bitmap: AllocationMap, cluster: nat)
    ensures bitmap.IsAllocated(cluster).Some? <==> cluster < bitmap.KnownClusterCount()
  {
  }

  // ---------- Bitmaps written bit by bit ----------

  /** Up to eight flags in a byte, the first one lowest. */
  function ByteOf(flags: seq<bool>): (value: nat)
    requires |flags| <= 8
    ensures value < [1, 2, 4, 8, 16, 32, 64, 128, 256][|flags|]
  {
    if flags == [] then 0 else (if flags[0] then 1 else 0) + 2 * ByteOf(flags[1..])
  }

  /** Cluster 0 is the lowest bit of the first byte. */
  function BitmapOf(flags: seq<bool>): (bits: seq<Byte>)
    ensures |bits| == (|flags| + 7) / 8
  {
    if flags == [] then []
    else if |flags| <= 8 then [ByteOf(flags)]
    else [ByteOf(flags[..8])] + BitmapOf(flags[8..])
  }

  lemma HalfBit(value: Byte, k: nat)
    requires 0 < k < 8
    ensures Bit(value, k) == Bit(value / 2, k - 1)
  {
  }

  lemma {:induction false} ByteOfBit(flags: seq<bool>, k: nat)
    requires k < |flags| <= 8
    ensures Bit(ByteOf(flags), k) == flags[k]
  {
    var value := ByteOf(flags);
    assert value / 2 == ByteOf(flags[1..]) && value % 2 == if flags[0] then 1 else 0;
    if k > 0 {
      HalfBit(value, k);
      ByteOfBit(flags[1..], k - 1);
    }
  }

  /** A bitmap written from flags answers exactly those flags, and nothing past them. */
  lemma {:induction false} BitmapRoundTrip(flags: seq<bool>, clusterCount: U64, c: nat)
    requires c < clusterCount
    ensures c < |flags| ==> AllocationMap(BitmapOf(flags), clusterCount).IsAllocated(c) == Some(flags[c])
    ensures c >= 8 * |BitmapOf(flags)| ==> AllocationMap(BitmapOf(flags), clusterCount).IsAllocated(c) == None
    decreases |flags|
  {
    hide Bit, ByteOf;
    if c < |flags| {
      if |flags| <= 8 {
        ByteOfBit(flags, c);
      } else if c < 8 {
        ByteOfBit(flags[..8], c);
      } else {
        BitmapRoundTrip(flags[8..], clusterCount, c - 8);
        assert BitmapOf(flags)[c / 8] == BitmapOf(flags[8..])[(c - 8) / 8];
      }
    }
  }

  class FreeClusterRuns {
    const bitmap: AllocationMap
    const knownClusters: nat
    var cursor: nat

    constructor (bitmap: AllocationMap)
      ensures this.bitmap == bitmap && cursor == 0 && Valid()
    {
      this.bitmap := bitmap;
      this.knownClusters := bitmap.KnownClusterCount();
      this.cursor := 0;
    }

    /** The iterator never stops inside a free run. */
    ghost predicate Valid()
      reads this
    {
      && knownClusters == bitmap.KnownClusterCount()
      && cursor <= knownClusters
      && (cursor == 0 || !bitmap.IsFree(cursor))
    }

    method Next() returns (run: Option<FreeRun>)
      requires Valid()
      modifies this`cursor
      ensures Valid()
      ensures run.None? ==> cursor == knownClusters && forall c :: old(cursor) <= c ==> !bitmap.IsFree(c)
      ensures run.Some? ==>
        && MaximalFree(bitmap, run.value)
        && old(cursor) <= run.value.start
        && cursor == run.value.start + run.value.count
        && forall c :: old(cursor) <= c < run.value.start ==> !bitmap.IsFree(c)
    {
      hide AllocationMap.IsAllocated;
      while cursor < knownClusters && bitmap.IsAllocated(cursor) != Some(false)
        invariant old(cursor) <= cursor <= knownClusters
        invariant forall c :: old(cursor) <= c < cursor ==> !bitmap.IsFree(c)
      {
        cursor := cursor + 1;
      }
      if cursor >= knownClusters {
        forall c | knownClusters <= c
          ensures !bitmap.IsFree(c)
        {
          KnownIsRetained(bitmap, c);
        }
        return None;
      }
      var start := cursor;
      while cursor < knownClusters && bitmap.IsAllocated(cursor) == Some(false)
        invariant start <= cursor <= knownClusters
        invariant forall c :: start <= c < cursor ==> bitmap.IsFree(c)
      {
        cursor := cursor + 1;
      }
      KnownIsRetained(bitmap, cursor);
      return Some(FreeRun(start, cursor - start));
    }
  }

  ghost predicate SeparatedRuns(runs: seq<FreeRun>) {
    forall j, k :: 0 <= j < k < |runs| ==> runs[j].start + runs[j].count < runs[k].start
  }

  /** The maximal free runs of the bitmap, all of them, in ascending order. */
  ghost predicate FreeRunsOf(bitmap: AllocationMap, runs: seq<FreeRun>) {
    (forall run :: run in runs <==> MaximalFree(bitmap, run)) && SeparatedRuns(runs)
  }

  /** There is only one such list. */
  lemma FreeRunsUnique(bitmap: AllocationMap, a: seq<FreeRun>, b: seq<FreeRun>)
    requires FreeRunsOf(bitmap, a) && FreeRunsOf(bitmap, b)
    ensures a == b
  {
    hide MaximalFree;
    SameSorted(a, b);
  }

  lemma {:induction false} SameSorted(a: seq<FreeRun>, b: seq<FreeRun>)
    requires SeparatedRuns(a) && SeparatedRuns(b) && forall run :: run in a <==> run in b
    ensures a == b
    decreases |a|
  {
    if a == [] {
      if b != [] {
        SomeRun(b);
      }
    } else {
      var rest, last := a[..|a| - 1], a[|a| - 1];
      assert last in b;
      var other := b[..|b| - 1];
      assert b[|b| - 1] in a;
      LastIsGreatest(a, b[|b| - 1]);
      LastIsGreatest(b, last);
      assert b[|b| - 1] == last;
      forall run
        ensures run in rest <==> run in other
      {
        NotLast(a, run);
        NotLast(b, run);
      }
      SameSorted(rest, other);
      assert a == rest + [last] && b == other + [last];
    }
  }

  lemma SomeRun(runs: seq<FreeRun>)
    requires runs != []
    ensures exists run :: run in runs
  {
    assert runs[0] in runs;
  }

  lemma LastIsGreatest(runs: seq<FreeRun>, run: FreeRun)
    requires SeparatedRuns(runs) && run in runs
    ensures run == runs[|runs| - 1] || run.start + run.count < runs[|runs| - 1].start
  {
  }

  lemma NotLast(runs: seq<FreeRun>, run: FreeRun)
    requires SeparatedRuns(runs) && runs != []
    ensures run in runs[..|runs| - 1] <==> run in runs && run != runs[|runs| - 1]
  {
    assert runs == runs[..|runs| - 1] + [runs[|runs| - 1]];
  }

  /** Draining the iterator yields every maximal free run, once, in ascending order, and nothing else. */
  method CollectFreeRuns(bitmap: AllocationMap) returns (runs: seq<FreeRun>)
    ensures forall run :: run in runs <==> MaximalFree(bitmap, run)
    ensures SeparatedRuns(runs)
  {
    runs := [];
    var walk := new FreeClusterRuns(bitmap);
    var next := walk.Next();
    while next.Some?
      invariant fresh(walk) && walk.bitmap == bitmap && walk.Valid()
      invariant SeparatedRuns(runs) && forall run :: run in runs ==> MaximalFree(bitmap, run)
      invariant next.Some? ==> MaximalFree(bitmap, next.value) && walk.cursor == next.value.start + next.value.count
      invariant forall run :: run in runs ==>
        run.start + run.count < (if next.Some? then next.value.start else walk.cursor + 1)
      invariant forall c :: 0 <= c < (if next.Some? then next.value.start else U64_LIMIT) && bitmap.IsFree(c) ==>
        Covered(runs, c)
      decreases walk.knownClusters - walk.cursor, next.Some?
    {
      var found := next.value;
      ghost var before := runs;
      runs := runs + [found];
      CoverMore(before, found);
      next := walk.Next();
    }
    forall run | MaximalFree(bitmap, run)
      ensures run in runs
    {
      assert bitmap.IsFree(run.start);
      assert Covered(runs, run.start);
      var owner :| owner in runs && owner.start <= run.start < owner.start + owner.count;
      SameMaximalRun(bitmap, run, owner);
    }
  }

  ghost predicate Covered(runs: seq<FreeRun>, c: int) {
    exists run :: run in runs && run.start <= c < run.start + run.count
  }

  lemma CoverMore(runs: seq<FreeRun>, more: FreeRun)
    ensures forall c :: Covered(runs, c) ==> Covered(runs + [more], c)
    ensures forall c :: more.start <= c < more.start + more.count ==> Covered(runs + [more], c)
  {
    assert more in runs + [more];
    forall c | Covered(runs, c)
      ensures Covered(runs + [more], c)
    {
      var run :| run in runs && run.start <= c < run.start + run.count;
      assert run in runs + [more];
    }
  }

  /** Two maximal runs that share a cluster are the same run. */
  lemma SameMaximalRun(bitmap: AllocationMap, a: FreeRun, b: FreeRun)
    requires MaximalFree(bitmap, a) && MaximalFree(bitmap, b)
    requires b.start <= a.start < b.start + b.count
    ensures a == b
  {
    assert !bitmap.IsFree(a.start - 1);
    assert !bitmap.IsFree(a.start + a.count) && !bitmap.IsFree(b.start + b.count);
  }
}
