/** The client session in lock step with the server, and its reader (crates/broker-client/src/lib.rs). */
module BrokerClient {
  import opened Common
  import opened BrokerMessages
  import opened BrokerWire
  import opened BrokerSessions

  datatype ClientError =
    | Broker(code: BrokerErrorCode)
    | TransportFailure
    | ProtocolFailure
    | UnexpectedResponse
    | ShortRead
    | SessionUnavailable

  function FromProtocol(error: ProtocolError): ClientError {
    if error.Io? then TransportFailure else ProtocolFailure
  }

  datatype OpenedSource = OpenedSource(handleId: U64, size: U64, logicalSector: U32, physicalSector: U32,
                                       physicalDiskNumber: U32)

  /** One client, one server, and the two queues between them. The server runs whenever the client waits for a reply. */
  class ProtocolReadSession {
    const server: Server
    const codec: SessionCodec
    const up: Channel
    const down: Channel
    var shutdownSent: bool
    var failed: bool
    ghost var requests: nat

    /** The objects are distinct; the server's own reads do not fail, the client's may. */
    ghost predicate Wired()
      reads this, codec, server, server.codec, up, down
    {
      && codec != server.codec && up != down && server.handleId != 0
      && codec.Valid() && server.codec.Valid()
      && Benign(up.script)
    }

    /** Unless the session failed: nothing in flight, equal counters, and one reply for every request but shutdown. */
    ghost predicate InStep()
      reads this, codec, server, server.codec, up, down
    {
      Wired() && (!failed ==> Level())
    }

    ghost predicate Level()
      reads this, codec, server, server.codec, up, down
    {
      && up.bytes == [] && down.bytes == []
      && codec.nextOutbound == server.codec.nextInbound && codec.nextInbound == server.codec.nextOutbound
      && (shutdownSent <==> server.state.Ended?)
      && (!shutdownSent ==> codec.nextOutbound == codec.nextInbound)
      && requests == server.tick == server.replies + if shutdownSent then 1 else 0
    }

    predicate Ready(request: Message)
      reads this`shutdownSent, this`failed, codec
    {
      !shutdownSent && !failed && Valid(request) && codec.nextOutbound.Some?
    }

    constructor (server: Server, up: Channel, down: Channel)
      requires server.handleId != 0 && up != down && up.bytes == [] && down.bytes == [] && Benign(up.script)
      requires server.codec.Valid() && server.codec.nextInbound == Some(1) && server.codec.nextOutbound == Some(1)
      requires server.state == AwaitHello && server.tick == 0 && server.replies == 0
      ensures InStep() && !shutdownSent && !failed && this.server == server && this.up == up && this.down == down
      ensures fresh(codec)
    {
      this.server, this.up, this.down := server, up, down;
      codec := new SessionCodec();
      shutdownSent, failed, requests := false, false, 0;
    }

    /** Sends a request and waits for its reply: the one the server's step gives. */
    method Exchange(request: Message) returns (r: Result<Message, ClientError>)
      requires InStep() && !request.Shutdown? && (server.state.AwaitHello? ==> request.Hello?)
      modifies this`failed, this`requests, codec, server`state, server`tick, server`replies, server.codec, up, down
      ensures Benign(old(down.script)) ==> Benign(down.script) && (old(Ready(request)) ==> r.Ok?)
      ensures old(Ready(request)) ==> server.state == old(server.Next(request)).state
      ensures old(Ready(request)) && r.Ok? ==> old(server.Next(request)).reply == Some(r.value) && !failed
      ensures !old(Ready(request)) ==> server.state == old(server.state)
      ensures !old(Ready(request)) ==>
        r == Err(if old(shutdownSent || failed) then SessionUnavailable else ProtocolFailure)
      ensures r.Err? ==> (failed || shutdownSent) && !r.error.Broker?
      ensures r.Ok? ==>
          server.tick == old(server.tick) + 1 && requests == old(requests) + 1 && old(codec.nextOutbound).Some? &&
          codec.nextOutbound == Successor(old(codec.nextOutbound).value)
      ensures (server.state.Ended? ==> shutdownSent || failed) ==> InStep()
    {
      if shutdownSent || failed {
        return Err(SessionUnavailable);
      }
      hide FrameBytes, ServerStep, BrokerMessages.Valid, Answers;
      var sent := codec.WriteMessage(up, request);
      if sent.Err? {
        failed := true;
        return Err(FromProtocol(sent.error));
      }
      StepAnswers(server.world, server.tick, server.handleId, server.state, request);
      requests := requests + 1;
      Serve(Frame(sent.value, request));
      r := Receive(Frame(sent.value, old(server.Next(request)).reply.value));
    }

    /** The server takes the one request in the queue and, unless it is shutdown, leaves one reply. */
    method Serve(ghost request: Frame)
      requires Wired() && !server.state.Ended? && server.codec.nextOutbound.Some?
      requires StartsWith(up.bytes, request, []) && down.bytes == []
      requires server.codec.nextInbound == Some(request.sequence)
      modifies server`state, server`tick, server`replies, server.codec, up, down`bytes
      ensures Wired() && up.bytes == [] && server.tick == old(server.tick) + 1
      ensures server.codec.nextInbound == Successor(request.sequence)
      ensures server.state == old(server.Next(request.message)).state
      ensures var reply := old(server.Next(request.message)).reply;
        && server.replies == old(server.replies) + (if reply.Some? then 1 else 0)
        && (reply.None? ==> down.bytes == [] && server.codec.nextOutbound == old(server.codec.nextOutbound))
        && (reply.Some? ==>
              server.codec.nextOutbound == Successor(old(server.codec.nextOutbound).value) &&
              StartsWith(down.bytes, Frame(old(server.codec.nextOutbound).value, reply.value), []))
    {
      hide FrameBytes, ServerStep, BrokerMessages.Valid;
      var failure := server.ServeOne(up, down, request, []);
    }

    /** Takes the one reply in the queue, unless the transport fails. */
    method Receive(ghost reply: Frame) returns (r: Result<Message, ClientError>)
      requires codec.Valid() && StartsWith(down.bytes, reply, []) && codec.nextInbound == Some(reply.sequence)
      modifies this`failed, codec`nextInbound, down
      ensures codec.Valid() && (Benign(old(down.script)) ==> Benign(down.script) && r.Ok?)
      ensures r.Ok? ==>
        r.value == reply.message && down.bytes == [] && codec.nextInbound == Successor(reply.sequence) &&
          failed == old(failed)
      ensures r.Err? ==> failed && !r.error.Broker?
    {
      hide FrameBytes, BrokerMessages.Valid;
      ghost var replied := down.bytes;
      var read := codec.ReadMessage(down);
      match read {
        case Ok(frame) =>
          OneFrame(replied, frame, down.bytes, reply, []);
          return Ok(frame.message);
        case Err(error) =>
          failed := true;
          return Err(FromProtocol(error));
      }
    }

    /** Past the handshake, and in step. */
    ghost predicate Connected()
      reads this, codec, server, server.codec, up, down
    {
      InStep() && !server.state.AwaitHello?
    }

    /** The source the server holds, at most one. */
    function Held(): Option<BrokerSource>
      reads server`state
    {
      if server.state.Serving? then server.state.source else None
    }

    /** Nothing stands in the way of opening this source now. */
    predicate Openable(sourceId: seq<Byte>)
      reads this`shutdownSent, this`failed, codec, server`state, server`tick
    {
      && Ready(OpenSource(sourceId)) && Held().None?
      && var answer := server.world.open(server.tick, sourceId);
        answer.Ok? && Valid(OpenedMessage(server.handleId, answer.value))
    }

    /** `open_source`. The replies the client treats as unexpected cannot arrive in lock step. */
    method Open(sourceId: seq<Byte>) returns (r: Result<OpenedSource, ClientError>)
      requires Connected()
      modifies this`failed, this`requests, codec, server`state, server`tick, server`replies, server.codec, up, down
      ensures Connected()
      ensures r.Ok? ==>
        old(Openable(sourceId)) && Held().Some? && server.world.open(old(server.tick), sourceId) == Ok(Held().value)
      ensures r.Ok? && Held().Some? ==>
          var source := Held().value;
          r.value
            == OpenedSource(server.handleId, |source.data|, source.logicalSector, source.physicalSector,
                            source.physicalDiskNumber)
      ensures r.Err? && !failed ==> Held() == old(Held())
      ensures old(Openable(sourceId) && Benign(down.script)) ==> r.Ok?
    {
      StepAnswersUnlessEnded(OpenSource(sourceId));
      var response :- Exchange(OpenSource(sourceId));
      match response {
        case Opened(handleId, size, logical, physical, disk) =>
          return Ok(OpenedSource(handleId, size, logical, physical, disk));
        case Error(code) => return Err(Broker(code));
        case _ => assert false;
      }
    }

    lemma StepAnswersUnlessEnded(request: Message)
      requires server.handleId != 0
      ensures !server.state.Ended? && Valid(request) ==>
        var s := server.Next(request);
        && (s.reply.Some? ==>
              Valid(s.reply.value) && (server.state.Serving? || request.Hello? ==> Answers(request, s.reply.value)))
    {
      if !server.state.Ended? && Valid(request) {
        StepAnswers(server.world, server.tick, server.handleId, server.state, request);
      }
    }

    lemma StepLeavesUnlessEnded(request: Message)
      requires !request.Shutdown?
      ensures server.state.Serving? && request.ReadAt? ==>
        var s := server.Next(request);
        && s.state.Serving? && s.reply.Some?
        && s.state.source == if IdentityInDoubt(s.reply.value) then None else Held()
    {
      if server.state.Serving? {
        StepLeaves(server.world, server.tick, server.handleId, server.state.source, request);
      }
    }

    /** Nothing stands in the way of this read now. */
    predicate Servable(handleId: U64, offset: U64, length: U32)
      reads this`shutdownSent, this`failed, codec, server`state, server`tick
    {
      && Ready(ReadAt(handleId, offset, length)) && Held().Some? && handleId == server.handleId
      && offset + length <= |Held().value.data|
      && server.world.revalidate(server.tick).None? && server.world.fault(server.tick).None?
    }

    /** `read_at`: bytes come back exactly when nothing stands in the way, and they are the source's own. */
    method Read(handleId: U64, offset: U64, length: U32) returns (r: Result<seq<Byte>, ClientError>)
      requires Connected()
      modifies this`failed, this`requests, codec, server`state, server`tick, server`replies, server.codec, up, down
      ensures Connected()
      ensures r.Ok? ==> old(Servable(handleId, offset, length)) && Held() == old(Held())
      ensures r.Ok? ==> r.value == old(Held()).value.data[offset..offset + length]
      ensures r.Err? && !r.error.Broker? && !failed ==> Held() == old(Held())
      ensures r.Err? && r.error.Broker? ==>
          var lost := {SourceNotFound, SourceIdentityMismatch, SourceUnavailable, SourceChanged};
          Held() == if r.error.code in lost then None else old(Held())
      ensures r.Err? ==> Held() == old(Held()) || Held() == None
      ensures r.Err? && r.error.Broker? && old(Held()).Some? && handleId == server.handleId ==>
          AnswersRead(server.world, old(server.tick), old(Held()).value.data, offset, length, Error(r.error.code))
      ensures old(Servable(handleId, offset, length) && Benign(down.script)) ==> r.Ok?
      ensures Benign(old(down.script)) ==> Benign(down.script)
      ensures r.Ok? ==>
        !failed && old(codec.nextOutbound).Some? && codec.nextOutbound == Successor(old(codec.nextOutbound).value)
    {
      StepAnswersUnlessEnded(ReadAt(handleId, offset, length));
      StepLeavesUnlessEnded(ReadAt(handleId, offset, length));
      var response :- Exchange(ReadAt(handleId, offset, length));
      match response {
        case ReadData(bytes) => return Ok(bytes);
        case Error(code) => return Err(Broker(code));
        case _ => assert false;
      }
    }

    /** `close_source`: closes the held source when the handle is its own. */
    method Close(handleId: U64) returns (r: Result<(), ClientError>)
      requires Connected()
      modifies this`failed, this`requests, codec, server`state, server`tick, server`replies, server.codec, up, down
      ensures Connected()
      ensures r.Ok? ==>
        old(Ready(CloseSource(handleId)) && Held().Some?) && handleId == server.handleId && Held() == None
      ensures r.Err? && !failed ==> Held() == old(Held())
      ensures handleId == server.handleId ==>
        old(Ready(CloseSource(handleId)) && Held().Some? && Benign(down.script)) ==> r.Ok?
    {
      StepAnswersUnlessEnded(CloseSource(handleId));
      var response :- Exchange(CloseSource(handleId));
      match response {
        case Closed(closed) => return Ok(());
        case Error(code) => return Err(Broker(code));
        case _ => assert false;
      }
    }

    /** `shutdown`: no reply is awaited; the server drops its source and ends. */
    method SendShutdown() returns (r: Result<(), ClientError>)
      requires Connected()
      modifies this`failed, this`shutdownSent, this`requests, codec`nextOutbound, server`state, server`tick,
               server`replies, server.codec, up, down`bytes
      ensures Connected()
      ensures r.Ok? ==> shutdownSent && (!failed ==> server.state.Ended? && Held() == None)
      ensures old(Ready(Shutdown)) ==> r.Ok?
      ensures old(shutdownSent) ==> r.Ok? && server.state == old(server.state) && server.tick == old(server.tick)
      ensures r.Err? ==> failed && server.state == old(server.state)
      ensures old(!shutdownSent && failed) ==> r == Err(SessionUnavailable)
    {
      if shutdownSent {
        return Ok(());
      }
      if failed {
        return Err(SessionUnavailable);
      }
      hide FrameBytes;
      var sent := codec.WriteMessage(up, Shutdown);
      if sent.Err? {
        failed := true;
        return Err(FromProtocol(sent.error));
      }
      requests := requests + 1;
      assert StartsWith(up.bytes, Frame(sent.value, Shutdown), []);
      Serve(Frame(sent.value, Shutdown));
      shutdownSent := true;
      return Ok(());
    }
  }

  /**
   * `connect`: the nonce exchange. A nonzero challenge is echoed, and without transport failures the session is
   * established.
   */
  method Connect(server: Server, up: Channel, down: Channel, challenge: Challenge)
    returns (r: Result<ProtocolReadSession, ClientError>)
    requires server.handleId != 0 && up != down && up.bytes == [] && down.bytes == [] && Benign(up.script)
    requires server.codec.Valid() && server.codec.nextInbound == Some(1) && server.codec.nextOutbound == Some(1)
    requires server.state == AwaitHello && server.tick == 0 && server.replies == 0
    modifies server`state, server`tick, server`replies, server.codec, up, down
    ensures r.Ok? ==>
      fresh(r.value) && r.value.server == server && r.value.Connected() && !r.value.failed && !r.value.shutdownSent
    ensures r.Ok? ==> challenge != Zeros(32) && r.value.Held() == None && r.value.requests == 1
    ensures challenge != Zeros(32) && Benign(old(down.script)) ==> r.Ok?
    ensures challenge == Zeros(32) ==>
      r == Err(Broker(AuthenticationFailed)) && server.state == AwaitHello && up.bytes == []
  {
    if challenge == Zeros(32) {
      return Err(Broker(AuthenticationFailed));
    }
    var session := new ProtocolReadSession(server, up, down);
    session.StepAnswersUnlessEnded(Hello(challenge));
    var response :- session.Exchange(Hello(challenge));
    match response {
      case HelloAck(echoed) => return Ok(session);
      case _ => assert false;
    }
  }

  datatype Call =
    | CallOpen(sourceId: seq<Byte>)
    | CallRead(handleId: U64, offset: U64, length: U32)
    | CallClose(handleId: U64)
    | CallShutdown

  /**
   * Any run of client calls stays in step, whatever their arguments, the broker's answers and the client's read
   * failures.
   */
  method RunCalls(session: ProtocolReadSession, calls: seq<Call>)
    requires session.Connected()
    modifies session, session.codec, session.server`state, session.server`tick, session.server`replies,
             session.server.codec, session.up, session.down
    ensures session.Connected()
    ensures !session.failed ==> session.requests == session.server.replies + (if session.shutdownSent then 1 else 0)
    ensures !session.failed ==> session.codec.nextOutbound == session.server.codec.nextInbound
    ensures !session.failed ==> session.codec.nextInbound == session.server.codec.nextOutbound
  {
    for i := 0 to |calls|
      invariant session.Connected()
    {
      match calls[i] {
        case CallOpen(sourceId) =>
          var r := session.Open(sourceId);
        case CallRead(handleId, offset, length) =>
          var r := session.Read(handleId, offset, length);
        case CallClose(handleId) =>
          var r := session.Close(handleId);
        case CallShutdown =>
          var r := session.SendShutdown();
      }
    }
  }

  datatype ReadError =
    | OutOfBounds(offset: nat, len: nat, sourceLen: nat)
    | ChunkFailed(cause: ClientError, chunkOffset: nat, chunkLength: nat)

  method CopyInto(buffer: array<Byte>, at: nat, bytes: seq<Byte>)
    requires at + |bytes| <= buffer.Length
    modifies buffer
    ensures buffer[..at + |bytes|] == old(buffer[..at]) + bytes
  {
    forall i | 0 <= i < |bytes| {
      buffer[at + i] := bytes[i];
    }
    assert buffer[..at] == old(buffer[..at]) && buffer[at..at + |bytes|] == bytes;
    assert buffer[..at + |bytes|] == buffer[..at] + buffer[at..at + |bytes|];
  }

  method FillZero(buffer: array<Byte>)
    modifies buffer
    ensures buffer[..] == Zeros(buffer.Length)
  {
    forall i | 0 <= i < buffer.Length {
      buffer[i] := 0;
    }
  }

  lemma SliceGrows(data: seq<Byte>, offset: nat, n: nat, more: nat)
    requires offset + n + more <= |data|
    ensures data[offset..offset + n + more] == data[offset..offset + n] + data[offset + n..offset + n + more]
  {
  }

  /** The scanner's reader over one opened source. */
  class BrokerSourceReader {
    const session: ProtocolReadSession
    const handleId: U64
    const length: U64

    ghost predicate Valid()
      reads session, session.codec, session.server, session.server.codec, session.up, session.down
    {
      && session.Connected() && handleId == session.server.handleId
      && (session.Held().Some? ==> |session.Held().value.data| == length)
    }

    /** Neither the transport nor the broker's source fails, and `n` more sequences are left. */
    ghost predicate Quiet(n: nat)
      reads session, session.codec, session.server, session.down
    {
      && !session.failed && !session.shutdownSent && Benign(session.down.script) && session.Held().Some?
      && session.codec.nextOutbound.Some? && session.codec.nextOutbound.value + n < U64_LIMIT
      && forall t :: session.server.world.revalidate(t).None? && session.server.world.fault(t).None?
    }

    lemma QuietIsServable(offset: nat, n: nat, left: nat)
      requires Valid() && Quiet(left) && 0 < n <= MAX_READ_LEN && offset + n <= length
      ensures session.Servable(handleId, offset, n)
    {
    }

    constructor (session: ProtocolReadSession, source: OpenedSource)
      requires session.Connected() && session.Held().Some?
      requires source.handleId == session.server.handleId && source.size == |session.Held().value.data|
      ensures Valid() && this.session == session && length == source.size
    {
      this.session, handleId, length := session, source.handleId, source.size;
    }

    /** One chunk, copied behind what is already there. */
    method ReadOne(at: nat, n: nat, buffer: array<Byte>, completed: nat, ghost left: nat)
      returns (failure: Option<ClientError>)
      requires Valid() && 0 < n <= MAX_READ_LEN && n <= left && at + n <= length && completed + n <= buffer.Length
      modifies buffer, session`failed, session`requests, session.codec, session.server`state, session.server`tick,
               session.server`replies,
               session.server.codec, session.up, session.down
      ensures Valid()
      ensures failure.None? ==>
          old(session.Held()).Some? && session.Held() == old(session.Held()) && at + n <= |session.Held().value.data| &&
          buffer[..completed + n] == old(buffer[..completed]) + session.Held().value.data[at..at + n]
      ensures old(Quiet(left)) ==> failure.None? && Quiet(left - n)
    {
      hide ProtocolReadSession.Connected, ProtocolReadSession.InStep;
      if Quiet(left) {
        QuietIsServable(at, n, left);
      }
      var chunk := session.Read(handleId, at, n);
      match chunk {
        case Ok(bytes) =>
          CopyInto(buffer, completed, bytes);
          failure := None;
        case Err(error) =>
          failure := Some(error);
      }
    }

    /**
     * `read_exact_at`: in bounds, the whole buffer becomes the source's bytes, over as many chunks as it takes; a
     * failed chunk leaves zeros and nothing else.
     */
    method ReadExactAt(offset: nat, buffer: array<Byte>) returns (r: Result<(), ReadError>)
      requires Valid()
      modifies buffer, session`failed, session`requests, session.codec, session.server`state, session.server`tick,
               session.server`replies,
               session.server.codec, session.up, session.down
      ensures Valid()
      ensures r == Err(OutOfBounds(offset, buffer.Length, length)) <==> offset + buffer.Length > length
      ensures r.Ok? && buffer.Length > 0 ==>
          old(session.Held()).Some? && session.Held() == old(session.Held()) &&
          buffer[..] == old(session.Held()).value.data[offset..offset + buffer.Length]
      ensures r.Err? && r.error.OutOfBounds? ==> buffer[..] == old(buffer[..]) && session.Held() == old(session.Held())
      ensures r.Err? && r.error.ChunkFailed? ==> buffer[..] == Zeros(buffer.Length)
      ensures old(Quiet(buffer.Length)) && offset + buffer.Length <= length ==> r.Ok?
    {
      if offset + buffer.Length > length {
        return Err(OutOfBounds(offset, buffer.Length, length));
      }
      hide Valid, Quiet;
      ghost var held := session.Held();
      var completed := 0;
      while completed < buffer.Length
        invariant completed <= buffer.Length && Valid() && session.Held() == held
        invariant old(Quiet(buffer.Length)) ==> Quiet(buffer.Length - completed)
        invariant completed > 0 ==> held.Some? && buffer[..completed] == held.value.data[offset..offset + completed]
      {
        var chunkLength := Min(buffer.Length - completed, MAX_READ_LEN);
        var failure := ReadOne(offset + completed, chunkLength, buffer, completed, buffer.Length - completed);
        if failure.Some? {
          FillZero(buffer);
          return Err(ChunkFailed(failure.value, offset + completed, chunkLength));
        }
        SliceGrows(held.value.data, offset, completed, chunkLength);
        completed := completed + chunkLength;
      }
      assert buffer[..buffer.Length] == buffer[..];
      return Ok(());
    }
  }
}
