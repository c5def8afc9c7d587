/** The broker's server step and session (crates/elevated-broker/src/lib.rs). */
module BrokerSessions {
  import opened Common
  import opened BrokerMessages
  import opened BrokerWire

  type SourceBytes = s: seq<Byte> | |s| < U64_LIMIT witness []

  /** One identity-bound read-only source; its size is the length of its bytes. */
  datatype BrokerSource = BrokerSource(data: SourceBytes, logicalSector: U32, physicalSector: U32,
                                       physicalDiskNumber: U32)

  /** What the operating system answers at each step: opening, identity checks and read faults. */
  datatype World = World(
    open: (nat, seq<Byte>) -> Result<BrokerSource, BrokerErrorCode>,
    revalidate: nat -> Option<BrokerErrorCode>,
    fault: nat -> Option<BrokerErrorCode>)

  datatype ServerState = AwaitHello | Serving(source: Option<BrokerSource>) | Ended

  datatype StepResult = StepResult(state: ServerState, reply: Option<Message>)

  predicate SourceIdentityFailure(code: BrokerErrorCode) {
    code.SourceNotFound? || code.SourceIdentityMismatch? || code.SourceUnavailable? || code.SourceChanged?
  }

  function OpenedMessage(handleId: U64, source: BrokerSource): Message {
    Opened(handleId, |source.data|, source.logicalSector, source.physicalSector, source.physicalDiskNumber)
  }

  /** A failed source is dropped when its identity is in doubt, and kept otherwise. */
  function AfterFailure(source: BrokerSource, code: BrokerErrorCode): StepResult {
    StepResult(Serving(if SourceIdentityFailure(code) then None else Some(source)), Some(Error(code)))
  }

  function ReadStep(world: World, tick: nat, source: BrokerSource, offset: U64, length: U32): StepResult {
    var same := Serving(Some(source));
    if offset + length >= U64_LIMIT || offset + length > |source.data| then
      StepResult(same, Some(Error(ReadOutOfRange)))
    else if world.revalidate(tick).Some? then AfterFailure(source, world.revalidate(tick).value)
    else if world.fault(tick).Some? then AfterFailure(source, world.fault(tick).value)
    else StepResult(same, Some(ReadData(source.data[offset..offset + length])))
  }

  function OpenStep(world: World, tick: nat, handleId: U64, sourceId: seq<Byte>): StepResult {
    match world.open(tick, sourceId)
    case Err(code) => StepResult(Serving(None), Some(Error(code)))
    case Ok(source) =>
      if Valid(OpenedMessage(handleId, source)) then
        StepResult(Serving(Some(source)), Some(OpenedMessage(handleId, source)))
      else StepResult(Serving(None), Some(Error(SourceIdentityMismatch)))
  }

  /** One turn of `serve_session`. */
  function ServerStep(world: World, tick: nat, handleId: U64, state: ServerState, m: Message): StepResult
    requires !state.Ended?
  {
    if state.AwaitHello? then
      if m.Hello? && m.challenge != Zeros(32) then StepResult(Serving(None), Some(HelloAck(m.challenge)))
      else StepResult(Ended, Some(Error(AuthenticationFailed)))
    else
      match m
      case OpenSource(sourceId) =>
        if state.source.Some? then StepResult(state, Some(Error(InvalidRequest)))
        else OpenStep(world, tick, handleId, sourceId)
      case ReadAt(requested, offset, length) =>
        if state.source.None? || requested != handleId then StepResult(state, Some(Error(InvalidHandle)))
        else ReadStep(world, tick, state.source.value, offset, length)
      case CloseSource(requested) =>
        if state.source.Some? && requested == handleId then StepResult(Serving(None), Some(Closed(requested)))
        else StepResult(state, Some(Error(InvalidHandle)))
      case Shutdown => StepResult(Ended, None)
      case _ => StepResult(state, Some(Error(InvalidRequest)))
  }

  /** The reply is of the kind the request asked for, and carries its challenge, handle or length. */
  predicate Answers(request: Message, reply: Message) {
    match request
    case Hello(challenge) => reply == HelloAck(challenge) || reply.Error?
    case OpenSource(_) => reply.Opened? || reply.Error?
    case ReadAt(_, _, length) => (reply.ReadData? && |reply.bytes| == length) || reply.Error?
    case CloseSource(handleId) => reply == Closed(handleId) || reply.Error?
    case _ => reply.Error?
  }

  /** Every valid request but shutdown gets one valid reply that answers it; what it read is the source's own bytes. */
  lemma StepAnswers(world: World, tick: nat, handleId: U64, state: ServerState, m: Message)
    requires !state.Ended? && Valid(m) && handleId != 0
    ensures var s := ServerStep(world, tick, handleId, state, m);
      && (s.reply.None? <==> state.Serving? && m.Shutdown?)
      && (s.reply.Some? ==> Valid(s.reply.value) && (state.Serving? || m.Hello? ==> Answers(m, s.reply.value)))
      && (m.ReadAt? && s.reply.Some? && s.reply.value.ReadData? ==>
            state.Serving? && state.source.Some? && s.state == state &&
              m.offset + m.length <= |state.source.value.data| &&
            s.reply.value.bytes == state.source.value.data[m.offset..m.offset + m.length])
  {
    assert Valid(Error(AuthenticationFailed));
  }

  /** The session starts, with no source, exactly after a greeting whose challenge is not all zeros; it echoes it. */
  lemma StepGreets(world: World, tick: nat, handleId: U64, m: Message)
    ensures var s := ServerStep(world, tick, handleId, AwaitHello, m);
      && (s.state != Ended <==> m.Hello? && exists i :: 0 <= i < 32 && m.challenge[i] != 0)
      && (s.state != Ended ==> s.state == Serving(None) && s.reply == Some(HelloAck(m.challenge)))
      && (s.state == Ended ==> s.reply == Some(Error(AuthenticationFailed)))
  {
    if m.Hello? && m.challenge != Zeros(32) {
      var i :| 0 <= i < 32 && m.challenge[i] != Zeros(32)[i];
    }
  }

  /** The broker's answers that put a source's identity in doubt. */
  predicate IdentityInDoubt(reply: Message) {
    reply in {Error(SourceNotFound), Error(SourceIdentityMismatch), Error(SourceUnavailable), Error(SourceChanged)}
  }

  /**
   * What every answer leaves behind: a read loses the source exactly when the answer puts its identity in doubt, a
   * close exactly when it is confirmed, an open gains one exactly when it is announced; nothing else touches it.
   */
  lemma StepLeaves(world: World, tick: nat, handleId: U64, source: Option<BrokerSource>, m: Message)
    requires !m.Shutdown?
    ensures var s := ServerStep(world, tick, handleId, Serving(source), m);
      && s.state.Serving? && s.reply.Some?
      && (m.ReadAt? ==> s.state.source == if IdentityInDoubt(s.reply.value) then None else source)
      && (m.CloseSource? ==> s.state.source == if s.reply.value == Closed(handleId) then None else source)
      && (m.OpenSource? && !s.reply.value.Opened? ==> s.state.source == source)
      && (m.OpenSource? && s.reply.value.Opened? ==>
            source == None && s.state.source.Some? && world.open(tick, m.sourceId) == Ok(s.state.source.value))
      && (!m.ReadAt? && !m.CloseSource? && !m.OpenSource? ==> s.state.source == source)
  {
  }

  /** A read of a held source under its own handle: its bytes, or the first thing that stands in the way. */
  predicate AnswersRead(world: World, tick: nat, data: SourceBytes, offset: U64, length: U32, reply: Message) {
    if offset + length > |data| then reply == Error(ReadOutOfRange)
    else if world.revalidate(tick).Some? then reply == Error(world.revalidate(tick).value)
    else if world.fault(tick).Some? then reply == Error(world.fault(tick).value)
    else reply == ReadData(data[offset..offset + length])
  }

  /** An open with no source held: the announced source, or why there is none. */
  predicate AnswersOpen(world: World, tick: nat, handleId: U64, sourceId: seq<Byte>, reply: Message) {
    match world.open(tick, sourceId)
    case Err(code) => reply == Error(code)
    case Ok(found) =>
      var announced :=
        Opened(handleId, |found.data|, found.logicalSector, found.physicalSector, found.physicalDiskNumber);
      reply == if Valid(announced) then announced else Error(SourceIdentityMismatch)
  }

  /** Which answer a request gets, by what is held and which handle it names. */
  lemma StepReplies(world: World, tick: nat, handleId: U64, source: Option<BrokerSource>, m: Message)
    requires !m.Shutdown? && Valid(m)
    ensures var step := ServerStep(world, tick, handleId, Serving(source), m);
      step.reply.Some? &&
      var reply := step.reply.value;
      match m
      case ReadAt(handle, offset, length) =>
        if source.Some? && handle == handleId then AnswersRead(world, tick, source.value.data, offset, length, reply)
        else reply == Error(InvalidHandle)
      case CloseSource(handle) =>
        reply == if source.Some? && handle == handleId then Closed(handle) else Error(InvalidHandle)
      case OpenSource(sourceId) =>
        if source.Some? then reply == Error(InvalidRequest) else AnswersOpen(world, tick, handleId, sourceId, reply)
      case _ => reply == Error(InvalidRequest)
  {
  }

  datatype SessionError = AuthenticationFailure | ProtocolFailed(error: ProtocolError)

  class Server {
    const world: World
    const handleId: U64
    const codec: SessionCodec
    var state: ServerState
    var tick: nat
    ghost var replies: nat

    constructor (world: World, handleId: U64)
      requires handleId != 0
      ensures fresh(codec) && codec.Valid() && codec.nextInbound == Some(1) && codec.nextOutbound == Some(1)
      ensures this.world == world && this.handleId == handleId && state == AwaitHello && tick == 0 && replies == 0
    {
      this.world, this.handleId, state, tick, replies := world, handleId, AwaitHello, 0, 0;
      codec := new SessionCodec();
    }

    function Next(m: Message): StepResult
      requires !state.Ended?
      reads this`state, this`tick
    {
      ServerStep(world, tick, handleId, state, m)
    }

    /** Reads one request, moves to the next state and sends the reply, if there is one. */
    method ServeOne(inbox: Channel, outbox: Channel, ghost request: Frame, ghost rest: seq<Byte>)
      returns (failure: Option<SessionError>)
      requires inbox != outbox && handleId != 0 && codec.Valid() && !state.Ended?
      requires Benign(inbox.script) && StartsWith(inbox.bytes, request, rest)
      requires codec.nextInbound == Some(request.sequence)
      requires codec.nextOutbound.Some?
      modifies this`state, this`tick, this`replies, codec, inbox, outbox`bytes
      ensures codec.Valid() && Benign(inbox.script) && inbox.bytes == rest && tick == old(tick) + 1
      ensures codec.nextInbound == Successor(request.sequence)
      ensures var step := old(Next(request.message));
        && state == step.state
        && (step.reply.None? ==>
              outbox.bytes == old(outbox.bytes) && codec.nextOutbound == old(codec.nextOutbound) &&
                replies == old(replies))
        && (step.reply.Some? ==>
              codec.nextOutbound == Successor(old(codec.nextOutbound).value) && replies == old(replies) + 1 &&
                Valid(step.reply.value) &&
              outbox.bytes == old(outbox.bytes) + FrameBytes(Frame(old(codec.nextOutbound).value, step.reply.value)))
    {
      hide FrameBytes, ServerStep, Valid;
      var read := codec.ReadMessage(inbox);
      var frame := read.value;
      StepAnswers(world, tick, handleId, state, frame.message);
      var step := Next(frame.message);
      state, tick := step.state, tick + 1;
      failure := None;
      if step.reply.Some? {
        var sent := codec.WriteMessage(outbox, step.reply.value);
        replies := replies + 1;
        if state.Ended? {
          failure := Some(AuthenticationFailure);
        }
      }
    }
  }
}
