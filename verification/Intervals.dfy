/** Sorting by a key, standing for the unstable library sorts: callers use the contract only. */
module Sorting {
  ghost predicate SortedBy<T>(key: T -> int, s: seq<T>) {
    forall i, j :: 0 <= i < j < |s| ==> key(s[i]) <= key(s[j])
  }

  function InsertBy<T(!new)>(key: T -> int, x: T, s: seq<T>): (r: seq<T>)
    ensures forall y :: y in r <==> y == x || y in s
  {
    if s == [] || key(x) <= key(s[0]) then [x] + s else [s[0]] + InsertBy(key, x, s[1..])
  }

  lemma {:induction false} InsertByPermutes<T(!new)>(key: T -> int, x: T, s: seq<T>)
    ensures multiset(InsertBy(key, x, s)) == multiset(s) + multiset{x}
  {
    if s != [] && key(x) > key(s[0]) {
      InsertByPermutes(key, x, s[1..]);
      assert s == [s[0]] + s[1..];
    }
  }

  lemma {:induction false} InsertBySorted<T(!new)>(key: T -> int, x: T, s: seq<T>)
    requires SortedBy(key, s)
    ensures SortedBy(key, InsertBy(key, x, s))
  {
    if s != [] && key(x) > key(s[0]) {
      InsertBySorted(key, x, s[1..]);
      var rest := InsertBy(key, x, s[1..]);
      assert forall y :: y in rest ==> key(s[0]) <= key(y);
      ConsSorted(key, s[0], rest);
    } else {
      ConsSorted(key, x, s);
    }
  }

  lemma ConsSorted<T>(key: T -> int, x: T, s: seq<T>)
    requires SortedBy(key, s) && forall y :: y in s ==> key(x) <= key(y)
    ensures SortedBy(key, [x] + s)
  {
  }

  function SortBy<T(!new)>(key: T -> int, s: seq<T>): (r: seq<T>)
    ensures SortedBy(key, r) && multiset(r) == multiset(s) && |r| == |s|
    ensures forall y :: y in r <==> y in s
  {
    if s == [] then []
    else
      assert s == [s[0]] + s[1..];
      InsertBySorted(key, s[0], SortBy(key, s[1..]));
      InsertByPermutes(key, s[0], SortBy(key, s[1..]));
      var r := InsertBy(key, s[0], SortBy(key, s[1..]));
      assert |multiset(r)| == |multiset(s)|;
      r
  }
}

/** Half-open ranges: membership, the normal form reached by merging, and its uniqueness. */
module Intervals {
  import opened Common
  import opened Sorting

  datatype Range = Range(start: nat, end: nat) {
    predicate Contains(x: int) {
      start <= x < end
    }
  }

  ghost predicate In(ranges: seq<Range>, x: int) {
    exists r :: r in ranges && r.Contains(x)
  }

  ghost predicate NonEmpty(ranges: seq<Range>) {
    forall r :: r in ranges ==> r.start < r.end
  }

  /** Nonempty, in order, and with a gap between neighbours: the maximal runs of a set. */
  ghost predicate Normal(ranges: seq<Range>) {
    && (forall k :: 0 <= k < |ranges| ==> ranges[k].start < ranges[k].end)
    && (forall j, k :: 0 <= j < k < |ranges| ==> ranges[j].end < ranges[k].start)
  }

  function Total(ranges: seq<Range>): int {
    if ranges == [] then 0
    else
      var last := ranges[|ranges| - 1];
      Total(ranges[..|ranges| - 1]) + last.end - last.start
  }

  ghost predicate Within(ranges: seq<Range>, limit: nat) {
    forall r :: r in ranges ==> r.end <= limit
  }

  /** How many of the first `n` positions satisfy `p`. */
  ghost function Count(p: nat -> bool, n: nat): nat {
    if n == 0 then 0 else Count(p, n - 1) + if p(n - 1) then 1 else 0
  }

  lemma {:induction false} CountAgree(p: nat -> bool, q: nat -> bool, n: nat)
    requires forall i :: 0 <= i < n ==> p(i) == q(i)
    ensures Count(p, n) == Count(q, n)
  {
    if n > 0 {
      CountAgree(p, q, n - 1);
    }
  }

  /** Counting a block of positions that all agree. */
  lemma {:induction false} CountBlock(p: nat -> bool, lo: nat, hi: nat, value: bool)
    requires lo <= hi
    requires forall i :: lo <= i < hi ==> p(i) == value
    ensures Count(p, hi) == Count(p, lo) + if value then hi - lo else 0
    decreases hi - lo
  {
    if lo < hi {
      CountBlock(p, lo, hi - 1, value);
    }
  }

  /** The lengths of normal ranges add up to the number of covered positions. */
  lemma {:induction false} TotalIsCount(ranges: seq<Range>, p: nat -> bool, n: nat)
    requires Normal(ranges) && Within(ranges, n)
    requires forall i :: 0 <= i < n ==> (p(i) <==> In(ranges, i))
    ensures Total(ranges) == Count(p, n)
  {
    if ranges == [] {
      CountBlock(p, 0, n, false);
    } else {
      var rest, last := ranges[..|ranges| - 1], ranges[|ranges| - 1];
      assert ranges == rest + [last];
      assert last in ranges;
      forall i | 0 <= i < last.start
        ensures p(i) <==> In(rest, i)
      {
        assert In(ranges, i) <==> In(rest, i);
      }
      forall i | last.start <= i < n
        ensures p(i) <==> i < last.end
      {
        assert In(ranges, i) <==> i < last.end;
      }
      CountBlock(p, last.start, last.end, true);
      CountBlock(p, last.end, n, false);
      TotalIsCount(rest, p, last.start);
    }
  }

  lemma SomeIn(ranges: seq<Range>)
    requires Normal(ranges) && ranges != []
    ensures exists x: int :: In(ranges, x)
  {
    assert ranges[0] in ranges && ranges[0].Contains(ranges[0].start);
    assert In(ranges, ranges[0].start);
  }

  /** A set has one normal list of ranges. */
  lemma {:induction false} NormalUnique(a: seq<Range>, b: seq<Range>)
    requires Normal(a) && Normal(b)
    requires forall x: int :: In(a, x) <==> In(b, x)
    ensures a == b
    decreases |a|
  {
    if a == [] {
      if b != [] {
        SomeIn(b);
      }
    } else {
      assert a[0] in a && In(a, a[0].start) && In(a, a[0].end - 1) && !In(a, a[0].end);
      assert b != [];
      assert b[0] in b && In(b, b[0].start) && In(b, b[0].end - 1) && !In(b, b[0].end);
      assert !In(a, a[0].start - 1) && !In(b, b[0].start - 1);
      HeadEqual(a, b);
      TailIn(a);
      TailIn(b);
      assert a == [a[0]] + a[1..] && b == [b[0]] + b[1..];
      NormalUnique(a[1..], b[1..]);
    }
  }

  lemma TailIn(a: seq<Range>)
    requires Normal(a) && a != []
    ensures Normal(a[1..]) && forall x: int :: In(a[1..], x) <==> In(a, x) && a[0].end < x
  {
    assert a == [a[0]] + a[1..];
    assert forall r :: r in a[1..] ==> a[0].end < r.start;
  }

  lemma HeadEqual(a: seq<Range>, b: seq<Range>)
    requires Normal(a) && Normal(b) && a != [] && b != []
    requires forall x: int :: In(a, x) <==> In(b, x)
    ensures a[0] == b[0]
  {
    assert a[0] in a && b[0] in b;
    assert In(a, a[0].start) && In(b, b[0].start);
    assert a[0].start == b[0].start;
    assert !In(a, a[0].end) && !In(b, b[0].end);
    var headA, headB := a[0], b[0];
    assert forall x: int :: headA.Contains(x) || headB.Contains(x) ==> In(a, x) && In(b, x);
  }

  /** One turn of the merging loops: grow the last range or start a new one. */
  function MergeOne(merged: seq<Range>, next: Range): seq<Range> {
    if merged != [] && next.start <= merged[|merged| - 1].end then
      var last := merged[|merged| - 1];
      merged[..|merged| - 1] + [Range(last.start, Max(last.end, next.end))]
    else
      merged + [next]
  }

  lemma MergeOneKeeps(merged: seq<Range>, next: Range)
    requires Normal(merged) && next.start < next.end
    requires merged != [] ==> merged[|merged| - 1].start <= next.start
    ensures Normal(MergeOne(merged, next)) && MergeOne(merged, next) != []
    ensures MergeOne(merged, next)[|MergeOne(merged, next)| - 1].start <= next.start
    ensures forall x: int :: In(MergeOne(merged, next), x) <==> In(merged, x) || next.Contains(x)
  {
    var after := MergeOne(merged, next);
    if merged != [] && next.start <= merged[|merged| - 1].end {
      var rest, last := merged[..|merged| - 1], merged[|merged| - 1];
      var grown := Range(last.start, Max(last.end, next.end));
      assert merged == rest + [last];
      forall x: int
        ensures In(after, x) <==> In(merged, x) || next.Contains(x)
      {
        assert In(merged, x) <==> In(rest, x) || last.Contains(x);
        assert In(after, x) <==> In(rest, x) || grown.Contains(x);
      }
    }
  }

  lemma InSnoc(ranges: seq<Range>, next: Range)
    ensures forall x: int :: In(ranges + [next], x) <==> In(ranges, x) || next.Contains(x)
  {
  }

  /**
   * Sorts and merges overlapping or touching ranges. `Candidate::covered_len` and the carver's
   * read outcomes both go through this loop.
   */
  method MergeRanges(ranges: seq<Range>) returns (merged: seq<Range>)
    requires NonEmpty(ranges)
    ensures Normal(merged)
    ensures forall x: int :: In(merged, x) <==> In(ranges, x)
  {
    hide Normal, In, SortedBy, MergeOne, SortBy;
    var ordered := SortBy((r: Range) => r.start, ranges);
    StartsInOrder(ordered);
    NoRanges();
    merged := [];
    for i := 0 to |ordered|
      invariant Normal(merged)
      invariant forall x: int :: In(merged, x) <==> In(ordered[..i], x)
      invariant merged != [] ==> i > 0 && merged[|merged| - 1].start <= ordered[i - 1].start
    {
      assert ordered[i] in ordered && ordered[i] in ranges;
      assert ordered[..i + 1] == ordered[..i] + [ordered[i]];
      MergeOneKeeps(merged, ordered[i]);
      InSnoc(ordered[..i], ordered[i]);
      merged := MergeOne(merged, ordered[i]);
    }
    assert ordered[..|ordered|] == ordered;
    SameRanges(ordered, ranges);
  }

  lemma NoRanges()
    ensures Normal([]) && forall x: int :: !In([], x)
  {
  }

  lemma StartsInOrder(ordered: seq<Range>)
    requires SortedBy((r: Range) => r.start, ordered)
    ensures forall i :: 0 < i < |ordered| ==> ordered[i - 1].start <= ordered[i].start
  {
    var key := (r: Range) => r.start;
    assert forall i :: 0 < i < |ordered| ==> key(ordered[i - 1]) <= key(ordered[i]);
  }

  lemma SameRanges(a: seq<Range>, b: seq<Range>)
    requires forall r :: r in a <==> r in b
    ensures forall x: int :: In(a, x) <==> In(b, x)
  {
  }
}
