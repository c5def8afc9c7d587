/** Zero-filled ranges with reasons, and the normal form in which they are reported (crates/restore/src/stream.rs). */
module ZeroRanges {
  import opened Common
  import opened Candidates

  const MAX_ZERO_FILLED_RANGES: nat := 65_536

  datatype ZeroRange = ZeroRange(logical: nat, len: nat, reason: ZeroReason) {
    function End(): nat {
      logical + len
    }

    predicate Covers(b: int) {
      logical <= b < logical + len
    }
  }

  ghost predicate ZeroAt(ranges: seq<ZeroRange>, b: int, reason: ZeroReason) {
    exists z :: z in ranges && z.Covers(b) && z.reason == reason
  }

  /** Nonempty, in order, and never two touching ranges with one reason: the maximal same-reason runs. */
  ghost predicate Maximal(ranges: seq<ZeroRange>) {
    && (forall k :: 0 <= k < |ranges| ==> ranges[k].len > 0)
    && (forall j, k :: 0 <= j < k < |ranges| ==> ranges[j].End() <= ranges[k].logical)
    && (forall k :: 0 < k < |ranges| && ranges[k - 1].End() == ranges[k].logical ==>
          ranges[k - 1].reason != ranges[k].reason)
  }

  function Append(ranges: seq<ZeroRange>, next: ZeroRange): seq<ZeroRange> {
    if ranges != [] && ranges[|ranges| - 1].End() == next.logical && ranges[|ranges| - 1].reason == next.reason then
      var last := ranges[|ranges| - 1];
      ranges[..|ranges| - 1] + [last.(len := last.len + next.len)]
    else
      ranges + [next]
  }

  lemma AppendKeeps(ranges: seq<ZeroRange>, next: ZeroRange)
    requires Maximal(ranges) && next.len > 0
    requires ranges != [] ==> ranges[|ranges| - 1].End() <= next.logical
    ensures Maximal(Append(ranges, next)) && Append(ranges, next) != []
    ensures Append(ranges, next)[|Append(ranges, next)| - 1].End() == next.End()
    ensures forall b: int, reason ::
      ZeroAt(Append(ranges, next), b, reason) <==>
        ZeroAt(ranges, b, reason) || (next.Covers(b) && next.reason == reason)
  {
    AppendBytes(ranges, next);
    hide ZeroAt;
    if Append(ranges, next) != ranges + [next] {
      assert ranges == ranges[..|ranges| - 1] + [ranges[|ranges| - 1]];
    }
  }

  lemma ZeroSnoc(ranges: seq<ZeroRange>, last: ZeroRange)
    ensures forall b: int, reason ::
      ZeroAt(ranges + [last], b, reason) <==> ZeroAt(ranges, b, reason) || (last.Covers(b) && last.reason == reason)
  {
  }

  lemma AppendBytes(ranges: seq<ZeroRange>, next: ZeroRange)
    ensures forall b: int, reason ::
      ZeroAt(Append(ranges, next), b, reason) <==>
        ZeroAt(ranges, b, reason) || (next.Covers(b) && next.reason == reason)
  {
    if Append(ranges, next) == ranges + [next] {
      ZeroSnoc(ranges, next);
    } else {
      var rest, last := ranges[..|ranges| - 1], ranges[|ranges| - 1];
      assert ranges == rest + [last];
      ZeroSnoc(rest, last);
      ZeroSnoc(rest, last.(len := last.len + next.len));
      hide ZeroAt;
    }
  }

  lemma MaximalHead(ranges: seq<ZeroRange>)
    requires Maximal(ranges) && ranges != []
    ensures Maximal(ranges[1..])
    ensures forall b: int, reason :: ZeroAt(ranges[1..], b, reason) <==>
      ZeroAt(ranges, b, reason) && b >= ranges[0].End()
    ensures !ZeroAt(ranges, ranges[0].End(), ranges[0].reason)
    ensures forall b: int, reason :: ZeroAt(ranges, b, reason) && b < ranges[0].End() ==>
      ranges[0].Covers(b) && reason == ranges[0].reason
    ensures forall b: int :: ranges[0].Covers(b) ==> ZeroAt(ranges, b, ranges[0].reason)
  {
    hide Maximal;
    var head, tail := ranges[0], ranges[1..];
    MaximalTail(ranges);
    assert ranges == [head] + tail;
  }

  lemma MaximalTail(ranges: seq<ZeroRange>)
    requires Maximal(ranges) && ranges != []
    ensures Maximal(ranges[1..]) && ranges[0].len > 0
    ensures forall z :: z in ranges[1..] ==> z.len > 0 && ranges[0].End() <= z.logical
    ensures forall z :: z in ranges[1..] && z.logical == ranges[0].End() ==> z.reason != ranges[0].reason
  {
    var tail := ranges[1..];
    assert forall k :: 0 <= k < |tail| ==> tail[k] == ranges[k + 1];
    assert tail != [] ==> forall z :: z in tail ==> z == tail[0] || tail[0].End() <= z.logical;
  }

  /** The maximal list is determined by what it says about each byte. */
  lemma {:induction false} MaximalUnique(a: seq<ZeroRange>, b: seq<ZeroRange>)
    requires Maximal(a) && Maximal(b)
    requires forall x: int, reason :: ZeroAt(a, x, reason) <==> ZeroAt(b, x, reason)
    ensures a == b
    decreases |a|
  {
    if a == [] {
      if b != [] {
        MaximalHead(b);
        assert b[0].Covers(b[0].logical);
      }
    } else {
      MaximalHead(a);
      assert a[0].Covers(a[0].logical);
      assert b != [] by {
        assert ZeroAt(b, a[0].logical, a[0].reason);
      }
      MaximalHead(b);
      SameHead(a, b);
      assert a == [a[0]] + a[1..] && b == [b[0]] + b[1..];
      MaximalUnique(a[1..], b[1..]);
    }
  }

  lemma SameHead(a: seq<ZeroRange>, b: seq<ZeroRange>)
    requires Maximal(a) && Maximal(b) && a != [] && b != []
    requires forall x: int, reason :: ZeroAt(a, x, reason) <==> ZeroAt(b, x, reason)
    ensures a[0] == b[0]
  {
    MaximalHead(a);
    MaximalHead(b);
    var first, second := a[0], b[0];
    assert first.Covers(first.logical) && second.Covers(second.logical);
    assert ZeroAt(b, first.logical, first.reason) && ZeroAt(a, second.logical, second.reason);
    assert first.logical == second.logical && first.reason == second.reason;
    assert !ZeroAt(a, first.End(), first.reason) && !ZeroAt(b, second.End(), second.reason);
    assert second.End() <= first.End() by {
      assert forall x: int :: first.Covers(x) ==> ZeroAt(b, x, first.reason);
    }
  }
}
