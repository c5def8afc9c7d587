/** The streaming loop: chunks read, bad bytes zeroed and recorded, bytes committed to a short-writing output. */
module Transfers {
  import opened Common
  import opened Intervals
  import opened Candidates
  import opened Sources
  import opened Plan
  import opened ZeroRanges
  import opened Streaming

  /** What the writer answers to one `write` call. */
  datatype WriteReply = Accept(n: nat) | Fail

  /**
   * An output that may take any part of what it is offered, fail, or report more than it was offered; `offers` are
   * the lengths so far.
   */
  class Sink {
    var accepted: seq<Byte>
    var offers: seq<nat>
    const reply: (nat, nat) -> WriteReply
    const junk: nat -> seq<Byte>

    constructor (reply: (nat, nat) -> WriteReply, junk: nat -> seq<Byte>)
      ensures accepted == [] && this.reply == reply
    {
      this.reply, this.junk := reply, junk;
      accepted, offers := [], [];
    }

    method Write(bytes: seq<Byte>) returns (r: WriteReply)
      modifies this
      ensures r == reply(|old(offers)|, |bytes|) && offers == old(offers) + [|bytes|]
      ensures r.Accept? && r.n <= |bytes| ==> accepted == old(accepted) + bytes[..r.n]
      ensures r.Accept? && r.n > |bytes| ==> old(accepted) <= accepted
      ensures r.Fail? ==> accepted == old(accepted)
    {
      r := reply(|offers|, |bytes|);
      if r.Accept? {
        accepted := accepted + if r.n <= |bytes| then bytes[..r.n] else junk(|offers|);
      }
      offers := offers + [|bytes|];
    }

    /** The answer to the latest call. */
    ghost function LastReply(): WriteReply
      requires offers != []
      reads this`offers
    {
      reply(|offers| - 1, offers[|offers| - 1])
    }
  }

  class CancelProbe {
    var checks: nat
    const fires: nat -> bool

    constructor (fires: nat -> bool) {
      this.fires := fires;
      checks := 0;
    }

    method IsCancelled() returns (cancelled: bool)
      modifies this
      ensures cancelled == fires(old(checks)) && checks == old(checks) + 1
    {
      cancelled := fires(checks);
      checks := checks + 1;
    }
  }

  datatype StreamOutcome = StreamOutcome(bytesWritten: nat, sha256: seq<Byte>, zeros: seq<ZeroRange>,
                                         requiresBestEffort: bool)

  /** The calls made before a stream starts: writes offered, cancellation checks asked. */
  datatype Before = Before(offers: nat, checks: nat)

  /** The writer's latest answer, given during this stream. */
  ghost predicate JustAnswered(sink: Sink, offersBefore: nat, bad: (WriteReply, nat) -> bool)
    reads sink`offers
  {
    offersBefore < |sink.offers| && sink.offers[|sink.offers| - 1] > 0 &&
      bad(sink.LastReply(), sink.offers[|sink.offers| - 1])
  }

  /** The next chunk at file position `at`, inside read segment `k`, gets a report that does not add up. */
  ghost predicate BadReport(plan: ContentPlan, source: Source, scratchLen: nat, at: nat, k: nat) {
    && k < |plan.segments| && plan.segments[k].Read? && plan.segments[k].logical <= at < plan.segments[k].End()
    && var n := Min(plan.segments[k].End() - at, scratchLen);
       !WellReported(n, source.report(plan.segments[k].physical + (at - plan.segments[k].logical), n))
  }

  /**
   * No failure without its cause in this very run: the latest cancellation check, the writer's latest answer, the
   * report of the chunk after the committed bytes, unreadable bytes of that chunk, or the evidence limit.
   */
  ghost predicate Caused(error: StreamError, source: Source, plan: ContentPlan, sink: Sink, probe: CancelProbe,
                         scratchLen: nat, before: Before, committed: nat, sha: seq<Byte> -> seq<Byte>)
    reads sink`offers, probe`checks
  {
    match error
    case Cancelled(_) => before.checks < probe.checks && probe.fires(probe.checks - 1)
    case WriteFailed(_) => JustAnswered(sink, before.offers, (reply: WriteReply, _) => reply.Fail?)
    case WriteZero(_) => JustAnswered(sink, before.offers, (reply: WriteReply, _) => reply == Accept(0))
    case OverReported(_) => JustAnswered(sink, before.offers,
                                         (reply: WriteReply, offered) => reply.Accept? && reply.n > offered)
    case InvalidReadOutcome => exists k: nat :: BadReport(plan, source, scratchLen, committed, k)
    case ReadFailure(logical, length) =>
      && plan.policy == CompleteOnly && length > 0
      && committed <= logical && logical + length <= Min(committed + scratchLen, plan.logicalSize)
      && forall b: int :: logical <= b < logical + length ==>
           ZeroReasonOf(PlanMeaning(plan.segments, b), source) == Some(PreviouslyReadFailed)
    case ZeroFillRangeLimit => |PlannedZeros(plan.segments)| > MAX_ZERO_FILLED_RANGES || Overfull(plan, source)
    case HashMismatch =>
      plan.expectedSha256.Some? && plan.expectedSha256.value != sha(Content(plan.segments, source, plan.logicalSize))
    case _ => PlanRejected(error) && !StreamReady(plan, |source.data|, scratchLen)
  }

  /** Some beginning of the file already needs more zero-filled ranges than the limit. */
  ghost predicate Overfull(plan: ContentPlan, source: Source) {
    exists zeros, frontier: nat ::
      && |zeros| > MAX_ZERO_FILLED_RANGES && frontier <= plan.logicalSize
      && ZerosUpTo(zeros, plan.segments, source, frontier)
  }

  /** Committing the next `k` bytes of a chunk that is itself the next part of the content. */
  lemma CommitMore(base: seq<Byte>, whole: seq<Byte>, start: nat, chunk: seq<Byte>, position: nat, k: nat)
    requires position + k <= |chunk| && start + |chunk| <= |whole| && chunk == whole[start..start + |chunk|]
    ensures var at := start + position;
      && base + whole[..at] + chunk[position..][..k] == base + whole[..at + k]
      && whole[..at] + chunk[position..position + k] == whole[..at + k]
  {
    var at := start + position;
    assert chunk[position..][..k] == chunk[position..position + k] == whole[at..at + k];
    assert whole[..at] + whole[at..at + k] == whole[..at + k];
    assert base + whole[..at] + whole[at..at + k] == base + (whole[..at] + whole[at..at + k]);
  }

  /** A planned zero segment, recorded as one more range. */
  lemma AppendSegment(zeros: seq<ZeroRange>, plan: ContentPlan, source: Source, k: nat)
    requires Tiles(plan.segments, plan.logicalSize) && k < |plan.segments| && plan.segments[k].ZeroFill?
    requires ZerosUpTo(zeros, plan.segments, source, plan.segments[k].logical)
    ensures var segment := plan.segments[k];
      ZerosUpTo(Append(zeros, ZeroRange(segment.logical, segment.len, segment.reason)), plan.segments, source,
                segment.End())
  {
    var segment := plan.segments[k];
    var next := ZeroRange(segment.logical, segment.len, segment.reason);
    TilesStep(plan.segments, plan.logicalSize, k);
    AppendKeeps(zeros, next);
    var after := Append(zeros, next);
    forall b: int | segment.logical <= b < segment.End()
      ensures ZeroReasonOf(PlanMeaning(plan.segments, b), source) == Some(segment.reason)
    {
      SegmentDecides(plan.segments, plan.logicalSize, k, b);
    }
    forall b: int, reason
      ensures ZeroAt(after, b, reason) <==>
        0 <= b < segment.End() && ZeroReasonOf(PlanMeaning(plan.segments, b), source) == Some(reason)
    {
      assert ZeroAt(after, b, reason) <==> ZeroAt(zeros, b, reason) || (next.Covers(b) && next.reason == reason);
    }
  }

  lemma NonSparseAppend(zeros: seq<ZeroRange>, next: ZeroRange)
    ensures NonSparse(Append(zeros, next)) <==> NonSparse(zeros) || next.reason != SparseZero
  {
    var after := Append(zeros, next);
    if after == zeros + [next] {
      assert next in after;
    } else {
      var rest, last := zeros[..|zeros| - 1], zeros[|zeros| - 1];
      assert zeros == rest + [last];
      assert after == rest + [last.(len := last.len + next.len)];
      assert after[|rest|] in after && zeros[|rest|] in zeros;
    }
  }

  /** The content of a stretch of one zero segment. */
  lemma ZeroStretch(plan: ContentPlan, source: Source, k: nat, at: nat, n: nat)
    requires Tiles(plan.segments, plan.logicalSize) && k < |plan.segments| && plan.segments[k].ZeroFill?
    requires plan.segments[k].logical <= at && at + n <= plan.segments[k].End()
    ensures at + n <= plan.logicalSize && Content(plan.segments, source, plan.logicalSize)[at..at + n] == Zeros(n)
  {
    TilesStep(plan.segments, plan.logicalSize, k);
    var content := Content(plan.segments, source, plan.logicalSize);
    forall b | at <= b < at + n
      ensures content[b] == 0
    {
      SegmentDecides(plan.segments, plan.logicalSize, k, b);
    }
    assert content[at..at + n] == Zeros(n);
  }

  /** The content of a stretch of one read segment. */
  lemma ReadStretch(plan: ContentPlan, source: Source, k: nat, at: nat, n: nat)
    requires Tiles(plan.segments, plan.logicalSize) && k < |plan.segments| && plan.segments[k].Read?
    requires plan.segments[k].logical <= at && at + n <= plan.segments[k].End()
    ensures at + n <= plan.logicalSize
    ensures Content(plan.segments, source, plan.logicalSize)[at..at + n]
      == source.BytesAt(plan.segments[k].physical + (at - plan.segments[k].logical), n)
  {
    TilesStep(plan.segments, plan.logicalSize, k);
    var content, segment := Content(plan.segments, source, plan.logicalSize), plan.segments[k];
    forall b | at <= b < at + n
      ensures content[b] == source.ByteAt(segment.physical + (b - segment.logical))
    {
      SegmentDecides(plan.segments, plan.logicalSize, k, b);
    }
    assert content[at..at + n] == source.BytesAt(segment.physical + (at - segment.logical), n);
  }

  /** In the middle of a chunk: everything before it, and the chunk's bad ranges handled so far. */
  ghost predicate ZerosInChunk(zeros: seq<ZeroRange>, segments: seq<Segment>, source: Source, chunk: nat,
                               bads: seq<Range>)
  {
    && Maximal(zeros)
    && (zeros != [] ==> zeros[|zeros| - 1].End() <= chunk + if bads == [] then 0 else bads[|bads| - 1].end)
    && (forall b: int, reason :: ZeroAt(zeros, b, reason) <==>
         (0 <= b < chunk && ZeroReasonOf(PlanMeaning(segments, b), source) == Some(reason))
         || (reason == PreviouslyReadFailed && In(bads, b - chunk)))
  }

  lemma ChunkStarts(zeros: seq<ZeroRange>, segments: seq<Segment>, source: Source, chunk: nat)
    requires ZerosUpTo(zeros, segments, source, chunk)
    ensures ZerosInChunk(zeros, segments, source, chunk, [])
  {
  }

  lemma BadStep(zeros: seq<ZeroRange>, segments: seq<Segment>, source: Source, chunk: nat, bads: seq<Range>,
                next: Range)
    requires ZerosInChunk(zeros, segments, source, chunk, bads)
    requires next.start < next.end && (bads != [] ==> bads[|bads| - 1].end <= next.start)
    ensures ZerosInChunk(Append(zeros, ZeroRange(chunk + next.start, next.end - next.start, PreviouslyReadFailed)),
                         segments, source, chunk, bads + [next])
  {
    var range := ZeroRange(chunk + next.start, next.end - next.start, PreviouslyReadFailed);
    AppendKeeps(zeros, range);
    InSnoc(bads, next);
    var after := Append(zeros, range);
    forall b: int, reason
      ensures ZeroAt(after, b, reason) <==>
        (0 <= b < chunk && ZeroReasonOf(PlanMeaning(segments, b), source) == Some(reason))
        || (reason == PreviouslyReadFailed && In(bads + [next], b - chunk))
    {
      assert ZeroAt(after, b, reason) <==> ZeroAt(zeros, b, reason) || (range.Covers(b) && range.reason == reason);
      assert In(bads + [next], b - chunk) <==> In(bads, b - chunk) || next.Contains(b - chunk);
    }
  }

  /** Once every bad range of the chunk is recorded, the frontier moves past the chunk. */
  lemma ChunkDone(zeros: seq<ZeroRange>, plan: ContentPlan, source: Source, k: nat, chunk: nat, n: nat,
                  bads: seq<Range>)
    requires Tiles(plan.segments, plan.logicalSize) && k < |plan.segments| && plan.segments[k].Read?
    requires plan.segments[k].logical <= chunk && chunk + n <= plan.segments[k].End()
    requires ZerosInChunk(zeros, plan.segments, source, chunk, bads) && Normal(bads) && Within(bads, n)
    requires forall i :: 0 <= i < n ==>
      (In(bads, i) <==> !source.Readable(plan.segments[k].physical + (chunk - plan.segments[k].logical) + i))
    ensures ZerosUpTo(zeros, plan.segments, source, chunk + n)
  {
    if bads != [] {
      assert bads[|bads| - 1] in bads;
    }
    forall b: int, reason
      ensures ZeroAt(zeros, b, reason) <==>
        0 <= b < chunk + n && ZeroReasonOf(PlanMeaning(plan.segments, b), source) == Some(reason)
    {
      if chunk <= b < chunk + n {
        SegmentDecides(plan.segments, plan.logicalSize, k, b);
        assert In(bads, b - chunk) <==> !source.Readable(plan.segments[k].physical + (b - plan.segments[k].logical));
      } else {
        assert In(bads, b - chunk) ==> 0 <= b - chunk < n;
      }
    }
  }

  ghost predicate TooManyInChunk(plan: ContentPlan, source: Source, chunk: nat, bads: seq<Range>) {
    exists zeros :: |zeros| > MAX_ZERO_FILLED_RANGES && ZerosInChunk(zeros, plan.segments, source, chunk, bads)
  }

  ghost predicate TooManyAt(plan: ContentPlan, source: Source, chunk: nat, bads: seq<Range>, j: nat) {
    j < |bads| && TooManyInChunk(plan, source, chunk, bads[..j + 1])
  }

  /** Too many ranges up to one bad range of a chunk are too many up to its end. */
  lemma ChunkOverfull(plan: ContentPlan, source: Source, k: nat, chunk: nat, n: nat, bads: seq<Range>, j: nat)
    requires Tiles(plan.segments, plan.logicalSize) && k < |plan.segments| && plan.segments[k].Read?
    requires plan.segments[k].logical <= chunk && chunk + n <= plan.segments[k].End()
    requires Normal(bads) && Within(bads, n) && TooManyAt(plan, source, chunk, bads, j)
    requires forall i :: 0 <= i < n ==>
      (In(bads, i) <==> !source.Readable(plan.segments[k].physical + (chunk - plan.segments[k].logical) + i))
    ensures Overfull(plan, source)
  {
    TilesStep(plan.segments, plan.logicalSize, k);
    hide Tiles, ZerosInChunk, ZerosUpTo, PlanMeaning;
    var upTo, end := bads[..j + 1], bads[j].end;
    assert bads[j] in bads;
    PrefixOfBads(bads, j);
    var zeros :| |zeros| > MAX_ZERO_FILLED_RANGES && ZerosInChunk(zeros, plan.segments, source, chunk, upTo);
    forall i | 0 <= i < end
      ensures In(upTo, i) <==> !source.Readable(plan.segments[k].physical + (chunk - plan.segments[k].logical) + i)
    {
      assert In(bads, i) <==> In(upTo, i);
    }
    ChunkDone(zeros, plan, source, k, chunk, end, upTo);
  }

  lemma PrefixOfBads(bads: seq<Range>, j: nat)
    requires Normal(bads) && j < |bads|
    ensures Normal(bads[..j + 1]) && Within(bads[..j + 1], bads[j].end)
    ensures forall i :: 0 <= i < bads[j].end ==> (In(bads[..j + 1], i) <==> In(bads, i))
  {
  }

  /** A chunk with its bad ranges zeroed. */
  ghost function Cleared(raw: seq<Byte>, bads: seq<Range>): (s: seq<Byte>)
    ensures |s| == |raw|
  {
    seq<Byte>(|raw|, i requires 0 <= i < |raw| => if In(bads, i) then 0 else raw[i])
  }

  lemma ClearedSnoc(raw: seq<Byte>, done: seq<Range>, bad: Range)
    requires bad.start <= bad.end <= |raw|
    ensures var was := Cleared(raw, done);
      Cleared(raw, done + [bad]) == was[..bad.start] + Zeros(bad.end - bad.start) + was[bad.end..]
  {
    InSnoc(done, bad);
  }

  /** Zeroing exactly the unreadable positions leaves the source's bytes. */
  lemma ClearedIsSource(source: Source, p: nat, n: nat, bads: seq<Range>)
    requires forall i :: 0 <= i < n ==> (In(bads, i) <==> !source.Readable(p + i))
    ensures Cleared(source.RawBytes(p, n), bads) == source.BytesAt(p, n)
  {
    forall i | 0 <= i < n
      ensures Cleared(source.RawBytes(p, n), bads)[i] == source.ByteAt(p + i)
    {
      assert source.RawBytes(p, n)[i] == source.RawAt(p + i);
    }
  }

  lemma NextBad(bads: seq<Range>, j: nat, n: nat)
    requires Normal(bads) && Within(bads, n) && j < |bads|
    ensures bads[j].start < bads[j].end <= n && (j > 0 ==> bads[..j][j - 1].end <= bads[j].start)
  {
    assert bads[j] in bads;
  }

  class Transfer {
    const source: Source
    const plan: ContentPlan
    const sink: Sink
    const probe: CancelProbe
    const scratch: array<Byte>
    var bytesWritten: nat
    var hashed: seq<Byte>
    var zeros: seq<ZeroRange>
    var bestEffort: bool
    ghost const base: seq<Byte>
    ghost const before: Before

    constructor (source: Source, plan: ContentPlan, sink: Sink, scratch: array<Byte>, probe: CancelProbe)
      requires StreamReady(plan, |source.data|, scratch.Length)
      ensures this.source == source && this.plan == plan && this.sink == sink && this.probe == probe
      ensures this.scratch == scratch
      ensures base == sink.accepted && before == Before(|sink.offers|, probe.checks)
      ensures Valid() && ZerosKept(0) && bytesWritten == 0
    {
      this.source, this.plan, this.sink, this.scratch, this.probe := source, plan, sink, scratch, probe;
      bytesWritten, hashed, zeros, bestEffort := 0, [], [], plan.requiresBestEffort;
      base, before := sink.accepted, Before(|sink.offers|, probe.checks);
      new;
      assert Whole()[..0] == [];
      assert base + [] == base;
    }

    ghost function Whole(): (s: seq<Byte>)
      ensures |s| == plan.logicalSize
    {
      Content(plan.segments, source, plan.logicalSize)
    }

    /** The output, the hash input and the counter agree on one prefix of the content. */
    ghost predicate Committed()
      reads this`bytesWritten, this`hashed, sink
    {
      && bytesWritten <= plan.logicalSize
      && sink.accepted == base + Whole()[..bytesWritten]
      && hashed == Whole()[..bytesWritten]
    }

    ghost predicate Valid()
      reads this`bytesWritten, this`hashed, sink, probe`checks
    {
      StreamReady(plan, |source.data|, scratch.Length) && Committed() && before.offers <= |sink.offers| &&
        before.checks <= probe.checks
    }

    /** The recorded ranges and the best-effort flag, for the bytes below `frontier`. */
    ghost predicate ZerosKept(frontier: nat)
      reads this`zeros, this`bestEffort
    {
      && ZerosUpTo(zeros, plan.segments, source, frontier)
      && |zeros| <= MAX_ZERO_FILLED_RANGES
      && (bestEffort <==> plan.requiresBestEffort || NonSparse(zeros))
    }

    /** After a failure: still a prefix, and nothing more unless the writer lied about its count. */
    ghost predicate StoppedAt(error: StreamError)
      reads this`bytesWritten, sink, probe`checks
    {
      && bytesWritten <= plan.logicalSize
      && base + Whole()[..bytesWritten] <= sink.accepted
      && (!error.OverReported? ==> sink.accepted == base + Whole()[..bytesWritten])
      && ReportsCommitted(error, bytesWritten)
      && error != HashMismatch
      && Caused(error, source, plan, sink, probe, scratch.Length, before, bytesWritten, _ => [])
    }

    method CheckCancel() returns (r: Result<(), StreamError>)
      requires Valid()
      modifies probe
      ensures Valid() && (r.Err? ==> StoppedAt(r.error))
    {
      var cancelled := probe.IsCancelled();
      r := if cancelled then Err(Cancelled(bytesWritten)) else Ok(());
    }

    /** One write of the loop below: some of the rest is taken, or the writer's answer ends the stream. */
    method WriteOnce(ghost start: nat, bytes: seq<Byte>, position: nat) returns (r: Result<nat, StreamError>)
      requires Valid() && position < |bytes| && start + |bytes| <= plan.logicalSize && bytesWritten == start + position
      requires bytes == Whole()[start..start + |bytes|]
      modifies this`bytesWritten, this`hashed, sink
      ensures r.Ok? ==> Valid() && 0 < r.value <= |bytes| - position && bytesWritten == old(bytesWritten) + r.value
      ensures r.Err? ==> StoppedAt(r.error)
    {
      hide StreamReady, Content;
      var reply := sink.Write(bytes[position..]);
      if reply.Fail? {
        return Err(WriteFailed(bytesWritten));
      }
      if reply.n == 0 {
        return Err(WriteZero(bytesWritten));
      }
      if reply.n > |bytes| - position {
        return Err(OverReported(bytesWritten));
      }
      CommitMore(base, Whole(), start, bytes, position, reply.n);
      hashed := hashed + bytes[position..position + reply.n];
      bytesWritten := bytesWritten + reply.n;
      return Ok(reply.n);
    }

    /** `write_committed`: the next part of the content, retrying short writes. */
    method WriteCommitted(bytes: seq<Byte>) returns (r: Result<(), StreamError>)
      requires Valid() && bytesWritten + |bytes| <= plan.logicalSize
      requires bytes == Whole()[bytesWritten..bytesWritten + |bytes|]
      modifies this`bytesWritten, this`hashed, sink, probe
      ensures r.Ok? ==> Valid() && bytesWritten == old(bytesWritten) + |bytes|
      ensures r.Err? ==> StoppedAt(r.error)
    {
      hide StreamReady, Content, Committed, StoppedAt;
      var position := 0;
      ghost var start := bytesWritten;
      while position < |bytes|
        invariant 0 <= position <= |bytes| && bytesWritten == start + position
        invariant Valid()
      {
        var cancel := CheckCancel();
        if cancel.Err? {
          return cancel;
        }
        var written := WriteOnce(start, bytes, position);
        if written.Err? {
          return Err(written.error);
        }
        position := position + written.value;
      }
      return Ok(());
    }

    /** `append_zero_range`. */
    method AppendZero(next: ZeroRange) returns (r: Result<(), StreamError>)
      requires |zeros| <= MAX_ZERO_FILLED_RANGES
      modifies this`zeros
      ensures r.Ok? ==> zeros == Append(old(zeros), next) && |zeros| <= MAX_ZERO_FILLED_RANGES
      ensures r.Err? ==> r.error == ZeroFillRangeLimit && |Append(old(zeros), next)| > MAX_ZERO_FILLED_RANGES
    {
      if zeros != [] {
        var last := zeros[|zeros| - 1];
        if last.End() == next.logical && last.reason == next.reason {
          zeros := zeros[..|zeros| - 1] + [last.(len := last.len + next.len)];
          return Ok(());
        }
      }
      if |zeros| >= MAX_ZERO_FILLED_RANGES {
        return Err(ZeroFillRangeLimit);
      }
      zeros := zeros + [next];
      return Ok(());
    }
  
    /** One zero chunk: clear the scratch buffer and commit it. */
    method WriteZeros(ghost k: nat, n: nat) returns (r: Result<(), StreamError>)
      requires Valid() && k < |plan.segments| && plan.segments[k].ZeroFill? && n <= scratch.Length
      requires plan.segments[k].logical <= bytesWritten && bytesWritten + n <= plan.segments[k].End()
      modifies this`bytesWritten, this`hashed, sink, probe, scratch
      ensures r.Ok? ==> Valid() && bytesWritten == old(bytesWritten) + n
      ensures r.Err? ==> StoppedAt(r.error)
    {
      ReadyFacts(plan, |source.data|, scratch.Length);
      ZeroStretch(plan, source, k, bytesWritten, n);
      forall i | 0 <= i < n {
        scratch[i] := 0;
      }
      assert scratch[..n] == Zeros(n);
      r := WriteCommitted(scratch[..n]);
    }

    method StreamZero(ghost k: nat, segment: Segment) returns (r: Result<(), StreamError>)
      requires Valid() && k < |plan.segments| && plan.segments[k] == segment && segment.ZeroFill?
      requires bytesWritten == segment.logical && ZerosKept(bytesWritten)
      modifies this, sink, probe, scratch
      ensures r.Ok? ==> Valid() && bytesWritten == segment.End() && ZerosKept(bytesWritten)
      ensures r.Err? ==> StoppedAt(r.error)
    {
      var next := ZeroRange(segment.logical, segment.len, segment.reason);
      AppendSegment(zeros, plan, source, k);
      NonSparseAppend(zeros, next);
      assert segment in plan.segments;
      TilesStep(plan.segments, plan.logicalSize, k);
      r := AppendZero(next);
      if r.Err? {
        assert Overfull(plan, source);
        return;
      }
      r := WriteZeroSegment(k, segment);
    }

    /** Zero chunk by zero chunk, with its evidence already recorded. */
    method WriteZeroSegment(ghost k: nat, segment: Segment) returns (r: Result<(), StreamError>)
      requires Valid() && k < |plan.segments| && plan.segments[k] == segment && segment.ZeroFill?
      requires bytesWritten == segment.logical && ZerosKept(segment.End())
      modifies this`bytesWritten, this`hashed, sink, probe, scratch
      ensures r.Ok? ==> Valid() && bytesWritten == segment.End() && ZerosKept(bytesWritten)
      ensures r.Err? ==> StoppedAt(r.error)
    {
      hide StreamReady, Content, ZerosKept, Committed, StoppedAt;
      var position := 0;
      while position < segment.len
        invariant 0 <= position <= segment.len && bytesWritten == segment.logical + position
        invariant Valid() && ZerosKept(segment.End())
      {
        var cancel := CheckCancel();
        if cancel.Err? {
          return cancel;
        }
        var chunkLen := Min(segment.len - position, scratch.Length);
        ReadyFacts(plan, |source.data|, scratch.Length);
        var written := WriteZeros(k, chunkLen);
        if written.Err? {
          return written;
        }
        position := position + chunkLen;
      }
      return Ok(());
    }
  
    /** `scratch[start..end].fill(0)`. */
    method ClearRange(start: nat, end: nat)
      requires start <= end <= scratch.Length
      modifies scratch
      ensures scratch[..] == old(scratch[..start]) + Zeros(end - start) + old(scratch[end..])
    {
      forall i | start <= i < end {
        scratch[i] := 0;
      }
    }

    /** The chunk in `scratch` is as read but for its first bad ranges, which are cleared and recorded. */
    ghost predicate BadRecorded(raw: seq<Byte>, chunk: nat, bads: seq<Range>, nonSparseBefore: bool)
      reads this`zeros, scratch
    {
      && |raw| <= scratch.Length && scratch[..|raw|] == Cleared(raw, bads)
      && |zeros| <= MAX_ZERO_FILLED_RANGES && ZerosInChunk(zeros, plan.segments, source, chunk, bads)
      && (NonSparse(zeros) <==> nonSparseBefore || bads != [])
    }

    method ZeroOneBad(ghost raw: seq<Byte>, chunk: nat, ghost done: seq<Range>, bad: Range, ghost nonSparseBefore: bool)
      returns (r: Result<(), StreamError>)
      requires BadRecorded(raw, chunk, done, nonSparseBefore)
      requires bad.start < bad.end <= |raw| && (done != [] ==> done[|done| - 1].end <= bad.start)
      modifies this`zeros, scratch
      ensures r.Ok? ==> BadRecorded(raw, chunk, done + [bad], nonSparseBefore)
      ensures r.Err? ==> r.error == ZeroFillRangeLimit && TooManyInChunk(plan, source, chunk, done + [bad])
    {
      hide ZerosInChunk, NonSparse, Append;
      BadStep(zeros, plan.segments, source, chunk, done, bad);
      ClearedSnoc(raw, done, bad);
      ghost var was := scratch[..|raw|];
      ClearRange(bad.start, bad.end);
      assert scratch[..|raw|] == was[..bad.start] + Zeros(bad.end - bad.start) + was[bad.end..];
      var next := ZeroRange(chunk + bad.start, bad.end - bad.start, PreviouslyReadFailed);
      NonSparseAppend(zeros, next);
      r := AppendZero(next);
    }

    /** Clears the bad ranges of the chunk in `scratch` and records them. */
    method ZeroBadRanges(ghost raw: seq<Byte>, bads: seq<Range>, chunk: nat) returns (r: Result<(), StreamError>)
      requires Normal(bads) && Within(bads, |raw|) && BadRecorded(raw, chunk, [], NonSparse(zeros))
      modifies this`zeros, scratch
      ensures r.Ok? ==> BadRecorded(raw, chunk, bads, old(NonSparse(zeros)))
      ensures r.Err? ==> r.error == ZeroFillRangeLimit && exists j: nat :: TooManyAt(plan, source, chunk, bads, j)
    {
      hide BadRecorded, NonSparse, TooManyInChunk, Normal, Within;
      assert bads[..0] == [];
      for j := 0 to |bads|
        invariant BadRecorded(raw, chunk, bads[..j], old(NonSparse(zeros)))
      {
        var bad := bads[j];
        assert bads[..j + 1] == bads[..j] + [bad];
        NextBad(bads, j, |raw|);
        r := ZeroOneBad(raw, chunk, bads[..j], bad, old(NonSparse(zeros)));
        if r.Err? {
          assert TooManyAt(plan, source, chunk, bads, j);
          return;
        }
      }
      assert bads[..|bads|] == bads;
      return Ok(());
    }

    /** One read chunk: read, account for bad ranges, commit. */
    method StreamChunk(ghost k: nat, segment: Segment, position: nat, n: nat) returns (r: Result<(), StreamError>)
      requires Valid() && source.Truthful() && k < |plan.segments| && plan.segments[k] == segment && segment.Read?
      requires bytesWritten == segment.logical + position && ZerosKept(bytesWritten)
      requires position < segment.len && n == Min(segment.len - position, scratch.Length) && 0 < n < U64_LIMIT
      modifies this, sink, probe, scratch
      ensures r.Ok? ==> Valid() && bytesWritten == old(bytesWritten) + n && ZerosKept(bytesWritten)
      ensures r.Err? ==> StoppedAt(r.error)
    {
      hide Content, StreamReady, Normal, Within, ZerosKept, Caused, Valid, StoppedAt, Committed, Tiles;
      ChunkFacts(k, segment, n);
      NotWritten();
      var read := ReadPlanned(k, segment, bytesWritten, n);
      if read.Err? {
        return Err(read.error);
      }
      r := RecordBad(k, segment, bytesWritten, n, read.value);
      if r.Ok? {
        r := WriteCommitted(scratch[..n]);
      }
    }

    /** What the next chunk of a read segment must contain. */
    lemma ChunkFacts(k: nat, segment: Segment, n: nat)
      requires Valid() && k < |plan.segments| && plan.segments[k] == segment && segment.Read?
      requires segment.logical <= bytesWritten && bytesWritten + n <= segment.End()
      ensures Tiles(plan.segments, plan.logicalSize) && bytesWritten + n <= plan.logicalSize
      ensures Whole()[bytesWritten..bytesWritten + n]
        == source.BytesAt(segment.physical + (bytesWritten - segment.logical), n)
    {
      hide Content;
      ReadyFacts(plan, |source.data|, scratch.Length);
      ReadStretch(plan, source, k, bytesWritten, n);
    }

    /** Stopping before the next write leaves exactly what is committed, for any cause not raised by the writer. */
    lemma NotWritten()
      requires Valid()
      ensures forall e: StreamError ::
        e.InvalidReadOutcome? || e.ReadFailure? ==>
          Caused(e, source, plan, sink, probe, scratch.Length, before, bytesWritten, _ => []) ==> StoppedAt(e)
      ensures Overfull(plan, source) ==> StoppedAt(ZeroFillRangeLimit)
    {
    }

    /** Reads one chunk; under the complete-only policy any unreadable byte ends the stream. */
    method ReadPlanned(ghost k: nat, segment: Segment, chunk: nat, n: nat) returns (r: Result<seq<Range>, StreamError>)
      requires Tiles(plan.segments, plan.logicalSize) && k < |plan.segments| && plan.segments[k] == segment
      requires segment.Read?
      requires segment.logical <= chunk < segment.End() && n == Min(segment.End() - chunk, scratch.Length)
      requires source.Truthful() && 0 < n < U64_LIMIT
      modifies scratch
      ensures r.Ok? ==> Normal(r.value) && Within(r.value, n)
      ensures r.Ok? ==> scratch[..n] == source.RawBytes(segment.physical + (chunk - segment.logical), n)
      ensures r.Ok? ==> forall i :: 0 <= i < n ==>
        (In(r.value, i) <==> !source.Readable(segment.physical + (chunk - segment.logical) + i))
      ensures r.Err? ==> r.error.InvalidReadOutcome? || r.error.ReadFailure?
      ensures r.Err? ==> Caused(r.error, source, plan, sink, probe, scratch.Length, before, chunk, _ => [])
    {
      hide Normal, Within, Tiles;
      r := ReadChunk(segment.physical + (chunk - segment.logical), n);
      if r.Err? {
        assert BadReport(plan, source, scratch.Length, chunk, k);
      }
      if r.Ok? && r.value != [] && plan.policy == CompleteOnly {
        FirstBadFails(plan, source, k, chunk, n, r.value);
        r := Err(ReadFailure(chunk + r.value[0].start, r.value[0].end - r.value[0].start));
      }
    }

    method StreamRead(ghost k: nat, segment: Segment) returns (r: Result<(), StreamError>)
      requires Valid() && source.Truthful() && k < |plan.segments| && plan.segments[k] == segment && segment.Read?
      requires bytesWritten == segment.logical && ZerosKept(bytesWritten)
      modifies this, sink, probe, scratch
      ensures r.Ok? ==> Valid() && bytesWritten == segment.End() && ZerosKept(bytesWritten)
      ensures r.Err? ==> StoppedAt(r.error)
    {
      ReadyFacts(plan, |source.data|, scratch.Length);
      hide Committed, StreamReady, ZerosKept, StoppedAt, Tiles;
      var position := 0;
      while position < segment.len
        invariant 0 <= position <= segment.len && bytesWritten == segment.logical + position
        invariant Valid() && ZerosKept(bytesWritten)
      {
        var cancel := CheckCancel();
        if cancel.Err? {
          return cancel;
        }
        var chunkLen := Min(segment.len - position, scratch.Length);
        var chunk := StreamChunk(k, segment, position, chunkLen);
        if chunk.Err? {
          return chunk;
        }
        position := position + chunkLen;
      }
      return Ok(());
    }

    method StreamSegments() returns (r: Result<(), StreamError>)
      requires Valid() && source.Truthful() && bytesWritten == 0 && ZerosKept(0)
      modifies this, sink, probe, scratch
      ensures r.Ok? ==> Valid() && bytesWritten == plan.logicalSize && ZerosKept(bytesWritten)
      ensures r.Err? ==> StoppedAt(r.error)
    {
      ReadyFacts(plan, |source.data|, scratch.Length);
      assert plan.segments == [] ==> plan.logicalSize == 0;
      if plan.segments != [] {
        TilesStep(plan.segments, plan.logicalSize, 0);
      }
      hide Committed, StreamReady, ZerosKept, StoppedAt, Tiles;
      for k := 0 to |plan.segments|
        invariant Valid() && ZerosKept(bytesWritten)
        invariant bytesWritten == if k < |plan.segments| then plan.segments[k].logical else plan.logicalSize
      {
        TilesStep(plan.segments, plan.logicalSize, k);
        var segment := plan.segments[k];
        var streamed;
        match segment {
          case Read(_, _, _) => streamed := StreamRead(k, segment);
          case ZeroFill(_, _, _) => streamed := StreamZero(k, segment);
        }
        if streamed.Err? {
          return streamed;
        }
      }
      return Ok(());
    }

    /**
     * Clears and accounts for the bad ranges of one chunk, which leaves the source's bytes with zeros where
     * unreadable.
     */
    method RecordBad(ghost k: nat, ghost segment: Segment, chunk: nat, n: nat, bads: seq<Range>)
      returns (r: Result<(), StreamError>)
      requires Tiles(plan.segments, plan.logicalSize) && k < |plan.segments| && plan.segments[k] == segment
      requires segment.Read?
      requires segment.logical <= chunk && chunk + n <= segment.End() && n <= scratch.Length
      requires Normal(bads) && Within(bads, n) && ZerosKept(chunk)
      requires scratch[..n] == source.RawBytes(segment.physical + (chunk - segment.logical), n)
      requires forall i :: 0 <= i < n ==>
        (In(bads, i) <==> !source.Readable(segment.physical + (chunk - segment.logical) + i))
      modifies this`zeros, this`bestEffort, scratch
      ensures r.Ok? ==> scratch[..n] == source.BytesAt(segment.physical + (chunk - segment.logical), n)
      ensures r.Ok? ==> ZerosKept(chunk + n)
      ensures r.Err? ==> r.error == ZeroFillRangeLimit && Overfull(plan, source)
    {
      hide Normal, Within, ZerosUpTo, ZerosInChunk, NonSparse, Tiles, TooManyAt, Overfull;
      ChunkStarts(zeros, plan.segments, source, chunk);
      assert Cleared(scratch[..n], []) == scratch[..n];
      ClearedIsSource(source, segment.physical + (chunk - segment.logical), n, bads);
      r := ZeroBadRanges(scratch[..n], bads, chunk);
      if r.Err? {
        ghost var j: nat :| TooManyAt(plan, source, chunk, bads, j);
        ChunkOverfull(plan, source, k, chunk, n, bads, j);
        return;
      }
      if bads != [] {
        bestEffort := true;
      }
      ChunkDone(zeros, plan, source, k, chunk, n, bads);
    }

    /** Whatever the read left in `scratch[..n]`, with the unreadable positions as normal ranges. */
    method ReadChunk(p: nat, n: nat) returns (r: Result<seq<Range>, StreamError>)
      requires source.Truthful() && 0 < n <= scratch.Length && n < U64_LIMIT
      modifies scratch
      ensures r.Err? ==> r.error == InvalidReadOutcome && !WellReported(n, source.report(p, n))
      ensures r.Ok? && r.value != [] ==> r.value[0].start < r.value[0].end
      ensures r.Ok? ==> scratch[..n] == source.RawBytes(p, n) && Normal(r.value) && Within(r.value, n)
      ensures r.Ok? ==> forall i :: 0 <= i < n ==> (In(r.value, i) <==> !source.Readable(p + i))
    {
      var outcome := ReadBestEffort(source, p, scratch, 0, n);
      assert source.TruthfulAt(p, n);
      hide WellReported;
      r := NormalizeBadRanges(n, outcome);
      if r.Ok? {
        BadAreUnreadable(source, p, n, r.value);
      }
    }
  }

  lemma FirstBadFails(plan: ContentPlan, source: Source, k: nat, chunk: nat, n: nat, bads: seq<Range>)
    requires Tiles(plan.segments, plan.logicalSize) && k < |plan.segments| && plan.segments[k].Read?
    requires plan.segments[k].logical <= chunk && chunk + n <= plan.segments[k].End()
    requires bads != [] && bads[0].start < bads[0].end && Within(bads, n)
    requires forall i :: 0 <= i < n ==>
      (In(bads, i) <==> !source.Readable(plan.segments[k].physical + (chunk - plan.segments[k].logical) + i))
    ensures forall b: int :: chunk + bads[0].start <= b < chunk + bads[0].end ==>
      ZeroReasonOf(PlanMeaning(plan.segments, b), source) == Some(PreviouslyReadFailed)
    ensures bads[0].end <= n && chunk + n <= plan.logicalSize
  {
    assert bads[0] in bads;
    TilesStep(plan.segments, plan.logicalSize, k);
    forall b: int | chunk + bads[0].start <= b < chunk + bads[0].end
      ensures ZeroReasonOf(PlanMeaning(plan.segments, b), source) == Some(PreviouslyReadFailed)
    {
      assert bads[0].Contains(b - chunk);
      assert In(bads, b - chunk);
      SegmentDecides(plan.segments, plan.logicalSize, k, b);
    }
  }

  lemma BadAreUnreadable(source: Source, p: nat, n: nat, bads: seq<Range>)
    requires source.TruthfulAt(p, n) && WellReported(n, source.report(p, n)) && forall x: int :: In(bads, x) <==>
      Reported(source.report(p, n).badRanges, x)
    ensures forall i :: 0 <= i < n ==> (In(bads, i) <==> !source.Readable(p + i))
  {
  }

  lemma ReadyFacts(plan: ContentPlan, sourceLen: nat, scratchLen: nat)
    requires StreamReady(plan, sourceLen, scratchLen)
    ensures Tiles(plan.segments, plan.logicalSize) && scratchLen > 0
  {
  }

  // ---------- The whole stream ----------

  function PlannedZeros(segments: seq<Segment>): seq<ZeroRange> {
    if segments == [] then []
    else
      var before, last := PlannedZeros(segments[..|segments| - 1]), segments[|segments| - 1];
      match last
      case Read(_, _, _) => before
      case ZeroFill(logical, len, reason) => Append(before, ZeroRange(logical, len, reason))
  }

  lemma {:induction false} PlannedZerosPrefix(segments: seq<Segment>, k: nat)
    requires k <= |segments|
    ensures |PlannedZeros(segments[..k])| <= |PlannedZeros(segments)|
    decreases |segments|
  {
    if k < |segments| {
      assert segments[..|segments| - 1][..k] == segments[..k];
      PlannedZerosPrefix(segments[..|segments| - 1], k);
    } else {
      assert segments[..k] == segments;
    }
  }

  /** `validate_planned_zero_ranges`: the planned ranges alone must fit the evidence limit. */
  method ValidatePlannedZeros(plan: ContentPlan) returns (r: Result<(), StreamError>)
    ensures r.Ok? <==> |PlannedZeros(plan.segments)| <= MAX_ZERO_FILLED_RANGES
    ensures r.Err? ==> r.error == ZeroFillRangeLimit
  {
    var ranges: seq<ZeroRange> := [];
    for k := 0 to |plan.segments|
      invariant ranges == PlannedZeros(plan.segments[..k]) && |ranges| <= MAX_ZERO_FILLED_RANGES
    {
      assert plan.segments[..k + 1][..k] == plan.segments[..k];
      PlannedZerosPrefix(plan.segments, k + 1);
      match plan.segments[k] {
        case Read(_, _, _) =>
        case ZeroFill(logical, len, reason) =>
          var more := Append(ranges, ZeroRange(logical, len, reason));
          if |more| > MAX_ZERO_FILLED_RANGES {
            return Err(ZeroFillRangeLimit);
          }
          ranges := more;
      }
    }
    assert plan.segments[..|plan.segments|] == plan.segments;
    return Ok(());
  }

  /** Everything a successful stream promises, whatever the chunking and however the writer split its writes. */
  ghost predicate OutcomeOf(outcome: StreamOutcome, plan: ContentPlan, source: Source, sha: seq<Byte> -> seq<Byte>) {
    && outcome.bytesWritten == plan.logicalSize
    && outcome.sha256 == sha(Content(plan.segments, source, plan.logicalSize))
    && ZerosUpTo(outcome.zeros, plan.segments, source, plan.logicalSize)
    && |outcome.zeros| <= MAX_ZERO_FILLED_RANGES
    && (outcome.requiresBestEffort <==> NonSparse(outcome.zeros))
    && (plan.expectedSha256.Some? ==> plan.expectedSha256.value == outcome.sha256)
  }

  /** A planned non-sparse zero segment always leaves a non-sparse range behind. */
  lemma PlannedNonSparse(zeros: seq<ZeroRange>, plan: ContentPlan, source: Source)
    requires Tiles(plan.segments, plan.logicalSize) && ZerosUpTo(zeros, plan.segments, source, plan.logicalSize)
    requires NeedsBestEffort(plan.segments)
    ensures NonSparse(zeros)
  {
    var k :| 0 <= k < |plan.segments| && plan.segments[k].ZeroFill? && plan.segments[k].reason != SparseZero;
    TilesStep(plan.segments, plan.logicalSize, k);
    SegmentDecides(plan.segments, plan.logicalSize, k, plan.segments[k].logical);
    assert ZeroAt(zeros, plan.segments[k].logical, plan.segments[k].reason);
  }

  /**
   * `stream_candidate`. On success the output gained exactly the planned content. On failure it gained the prefix of
   * `committed` bytes, the number any write or cancellation error reports, and nothing else unless the writer lied.
   */
  method StreamCandidate(source: Source, plan: ContentPlan, sink: Sink, scratch: array<Byte>, probe: CancelProbe,
                         sha: seq<Byte> -> seq<Byte>)
    returns (r: Result<StreamOutcome, StreamError>, ghost committed: nat)
    requires source.Truthful() && |source.data| < U64_LIMIT && plan.logicalSize < U64_LIMIT
    modifies sink, scratch, probe
    ensures r.Ok? ==>
      && OutcomeOf(r.value, plan, source, sha)
      && sink.accepted == old(sink.accepted) + Content(plan.segments, source, plan.logicalSize)
      && StreamReady(plan, |source.data|, scratch.Length)
    ensures r.Err? ==>
      && committed <= plan.logicalSize
      && old(sink.accepted) + Content(plan.segments, source, plan.logicalSize)[..committed] <= sink.accepted
      && (!r.error.OverReported? ==>
           sink.accepted == old(sink.accepted) + Content(plan.segments, source, plan.logicalSize)[..committed])
      && ReportsCommitted(r.error, committed)
      && Caused(r.error, source, plan, sink, probe, scratch.Length, Before(|old(sink.offers)|, old(probe.checks)),
                committed, sha)
    ensures r == Err(HashMismatch) ==> committed == plan.logicalSize
    ensures r.Err? && PlanRejected(r.error) ==> committed == 0
  {
    committed := 0;
    assert old(sink.accepted) + [] == sink.accepted;
    var ready := Preflight(|source.data|, plan, scratch.Length);
    if ready.Err? {
      return Err(ready.error), 0;
    }
    var planned := ValidatePlannedZeros(plan);
    if planned.Err? {
      return Err(planned.error), 0;
    }
    var transfer := new Transfer(source, plan, sink, scratch, probe);
    var streamed := transfer.StreamSegments();
    committed := transfer.bytesWritten;
    if streamed.Err? {
      return Err(streamed.error), committed;
    }
    // The source compares the final count with the logical size here; Valid and the loop make them equal.
    var whole := transfer.hashed;
    assert whole == Content(plan.segments, source, plan.logicalSize);
    if NeedsBestEffort(plan.segments) {
      PlannedNonSparse(transfer.zeros, plan, source);
    }
    var actual := sha(whole);
    if plan.expectedSha256.Some? && plan.expectedSha256.value != actual {
      return Err(HashMismatch), committed;
    }
    return Ok(StreamOutcome(transfer.bytesWritten, actual, transfer.zeros, transfer.bestEffort)), committed;
  }
}
