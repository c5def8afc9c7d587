/** Frames over a byte channel that may deliver them in any pieces (crates/broker-protocol/src/codec.rs). */
module BrokerWire {
  import opened Common
  import opened BrokerMessages

  const PROTOCOL_MAGIC: seq<Byte> := [0x55, 0x4D, 0x42, 0x50]
  const PROTOCOL_VERSION: nat := 3
  const HEADER_LEN: nat := 20
  const MAX_PAYLOAD_LEN: nat := MAX_READ_LEN

  datatype FramePart = HeaderPart | PayloadPart

  datatype ProtocolError =
    | Io
    | Truncated(part: FramePart, expected: nat, actual: nat)
    | InvalidMagic(magic: seq<Byte>)
    | UnsupportedVersion(version: nat)
    | UnknownOpcode(unknown: nat)
    | PayloadTooLarge(length: nat)
    | BadPayload(opcode: nat)
    | InvalidMessage
    | InvalidSequence
    | Replay(sequence: nat, lastAccepted: nat)
    | OutOfSequence(due: nat, received: nat)
    | SequenceExhausted
    | TrailingFrameBytes(count: nat)

  datatype Frame = Frame(sequence: U64, message: Message)

  predicate ValidFrame(f: Frame) {
    f.sequence != 0 && Valid(f.message)
  }

  function HeaderBytes(opcode: U16, sequence: U64, length: U32): (s: seq<Byte>)
    ensures |s| == HEADER_LEN
  {
    PROTOCOL_MAGIC + ToLE(PROTOCOL_VERSION, 2) + ToLE(opcode, 2) + ToLE(sequence, 8) + ToLE(length, 4)
  }

  function FrameBytes(f: Frame): seq<Byte>
    requires Valid(f.message)
  {
    ValidPayloadFits(f.message);
    HeaderBytes(Opcode(f.message), f.sequence, |PayloadBytes(f.message)|) + PayloadBytes(f.message)
  }

  /** `encode_frame` refuses sequence zero and invalid messages, and nothing else. */
  function EncodeFrame(sequence: U64, message: Message): (r: Result<seq<Byte>, ProtocolError>)
    ensures r.Ok? <==> ValidFrame(Frame(sequence, message))
    ensures r.Err? ==> r.error == if sequence == 0 then InvalidSequence else InvalidMessage
    ensures r.Ok? ==> HEADER_LEN <= |r.value| <= HEADER_LEN + MAX_PAYLOAD_LEN
  {
    if sequence == 0 then Err(InvalidSequence)
    else if !Valid(message) then Err(InvalidMessage)
    else
      ValidPayloadFits(message);
      Ok(FrameBytes(Frame(sequence, message)))
  }

  // ---------- The channel ----------

  /** How the transport answers one read call. */
  datatype Reply = Interrupted | Give(n: nat) | EarlyEof | Overrun | Failed

  datatype ReadReply = Data(bytes: seq<Byte>) | WasInterrupted | EofError | IoError

  ghost predicate Benign(script: seq<Reply>) {
    forall r :: r in script ==> r.Interrupted? || r.Give?
  }

  /** A lossless byte queue; the script says into which pieces its reads are cut. */
  class Channel {
    var bytes: seq<Byte>
    var script: seq<Reply>

    constructor (bytes: seq<Byte>, script: seq<Reply>)
      ensures this.bytes == bytes && this.script == script
    {
      this.bytes, this.script := bytes, script;
    }

    method Write(more: seq<Byte>)
      modifies this`bytes
      ensures bytes == old(bytes) + more
    {
      bytes := bytes + more;
    }

    /** At most `want` bytes; none only when the queue is empty. */
    method Read(want: nat) returns (r: ReadReply)
      requires want > 0
      modifies this
      ensures r.Data? ==> old(bytes) == r.bytes + bytes && |r.bytes| <= want && (r.bytes == [] ==> old(bytes) == [])
      ensures !r.Data? ==> bytes == old(bytes) && |script| < |old(script)|
      ensures |script| <= |old(script)|
      ensures Benign(old(script)) ==> Benign(script) && (r.Data? || r.WasInterrupted?)
    {
      var limit := want;
      if script != [] {
        var head := script[0];
        assert head in script;
        script := script[1..];
        match head {
          case Interrupted => return WasInterrupted;
          case EarlyEof => return EofError;
          case Overrun => return IoError;
          case Failed => return IoError;
          case Give(n) => limit := Min(want, Max(n, 1));
        }
      }
      var k := Min(limit, |bytes|);
      r := Data(bytes[..k]);
      bytes := bytes[k..];
    }
  }

  /** `read_exact_bounded`: however the bytes arrive, the result is the next `n` of them. */
  method ReadExactBounded(channel: Channel, n: nat, part: FramePart) returns (r: Result<seq<Byte>, ProtocolError>)
    modifies channel
    ensures r.Ok? ==> |r.value| == n && old(channel.bytes) == r.value + channel.bytes
    ensures r.Err? ==>
      r.error.Io? || (r.error.Truncated? && r.error.part == part && r.error.expected == n && r.error.actual < n)
    ensures Benign(old(channel.script)) ==> Benign(channel.script) && (r.Ok? <==> n <= |old(channel.bytes)|)
    ensures Benign(old(channel.script)) && r.Err? ==> r.error == Truncated(part, n, |old(channel.bytes)|)
  {
    var got: seq<Byte> := [];
    while |got| < n
      invariant |got| <= n && old(channel.bytes) == got + channel.bytes
      invariant Benign(old(channel.script)) ==> Benign(channel.script)
      decreases n - |got|, |channel.script|
    {
      var reply := channel.Read(n - |got|);
      match reply {
        case Data(piece) =>
          if piece == [] {
            return Err(Truncated(part, n, |got|));
          }
          got := got + piece;
        case WasInterrupted =>
        case EofError => return Err(Truncated(part, n, |got|));
        case IoError => return Err(Io);
      }
    }
    return Ok(got);
  }

  // ---------- Frames ----------

  datatype Header = Header(opcode: U16, sequence: U64, length: U32)

  predicate ValidHeader(h: Header) {
    1 <= h.opcode <= 10 && h.sequence != 0 && h.length <= MAX_PAYLOAD_LEN
  }

  function BytesOfHeader(h: Header): seq<Byte> {
    HeaderBytes(h.opcode, h.sequence, h.length)
  }

  lemma HeaderFields(h: Header)
    ensures var s := BytesOfHeader(h);
      && s[0..4] == PROTOCOL_MAGIC && FromLE(s[4..6]) == PROTOCOL_VERSION && FromLE(s[6..8]) == h.opcode
      && FromLE(s[8..16]) == h.sequence && FromLE(s[16..20]) == h.length
  {
    hide ToLE, FromLE;
    Pow256Values();
    var s := BytesOfHeader(h);
    assert s[4..6] == ToLE(PROTOCOL_VERSION, 2) && s[6..8] == ToLE(h.opcode, 2) && s[8..16] == ToLE(h.sequence, 8) &&
      s[16..20] == ToLE(h.length, 4);
    FromToLE(PROTOCOL_VERSION, 2);
    FromToLE(h.opcode, 2);
    FromToLE(h.sequence, 8);
    FromToLE(h.length, 4);
  }

  lemma HeaderFromFields(s: seq<Byte>)
    requires |s| == HEADER_LEN && s[0..4] == PROTOCOL_MAGIC && FromLE(s[4..6]) == PROTOCOL_VERSION
    ensures FromLE(s[6..8]) < U16_LIMIT && FromLE(s[8..16]) < U64_LIMIT && FromLE(s[16..20]) < U32_LIMIT
    ensures s == HeaderBytes(FromLE(s[6..8]), FromLE(s[8..16]), FromLE(s[16..20]))
  {
    hide ToLE, FromLE;
    Pow256Values();
    FromLEBound(s[6..8]);
    FromLEBound(s[8..16]);
    FromLEBound(s[16..20]);
    ToFromLE(s[4..6]);
    ToFromLE(s[6..8]);
    ToFromLE(s[8..16]);
    ToFromLE(s[16..20]);
    assert s == s[0..4] + s[4..6] + s[6..8] + s[8..16] + s[16..20];
  }

  /** The header half of `read_frame`. */
  method ReadHeader(channel: Channel) returns (r: Result<Header, ProtocolError>)
    modifies channel
    ensures r.Ok? ==> ValidHeader(r.value) && old(channel.bytes) == BytesOfHeader(r.value) + channel.bytes
    ensures Benign(old(channel.script)) ==> Benign(channel.script)
    ensures Benign(old(channel.script)) ==>
        forall h, rest :: ValidHeader(h) && old(channel.bytes) == BytesOfHeader(h) + rest ==>
          r == Ok(h) && channel.bytes == rest
  {
    hide FromLE, HeaderBytes;
    var header :- ReadExactBounded(channel, HEADER_LEN, HeaderPart);
    ghost var all := old(channel.bytes);
    forall h, rest | ValidHeader(h) && all == BytesOfHeader(h) + rest
      ensures header == BytesOfHeader(h) && channel.bytes == rest
      ensures header[0..4] == PROTOCOL_MAGIC && FromLE(header[4..6]) == PROTOCOL_VERSION
      ensures h.opcode == FromLE(header[6..8]) && h.sequence == FromLE(header[8..16])
      ensures h.length == FromLE(header[16..20])
    {
      SplitEqual(header, channel.bytes, BytesOfHeader(h), rest);
      HeaderFields(h);
    }
    if header[0..4] != PROTOCOL_MAGIC {
      return Err(InvalidMagic(header[0..4]));
    }
    var version := FromLE(header[4..6]);
    if version != PROTOCOL_VERSION {
      return Err(UnsupportedVersion(version));
    }
    HeaderFromFields(header);
    var opcode, sequence, length := FromLE(header[6..8]), FromLE(header[8..16]), FromLE(header[16..20]);
    if opcode < 1 || opcode > 10 {
      return Err(UnknownOpcode(opcode));
    }
    if sequence == 0 {
      return Err(InvalidSequence);
    }
    if length > MAX_PAYLOAD_LEN {
      return Err(PayloadTooLarge(length));
    }
    return Ok(Header(opcode, sequence, length));
  }

  function HeaderOf(f: Frame): (h: Header)
    requires ValidFrame(f)
    ensures ValidHeader(h) && FrameBytes(f) == BytesOfHeader(h) + PayloadBytes(f.message)
  {
    ValidPayloadFits(f.message);
    Header(Opcode(f.message), f.sequence, |PayloadBytes(f.message)|)
  }

  /** Where everything in a frame lies: twenty bytes of header, then the payload. */
  lemma FrameLayout(f: Frame)
    requires ValidFrame(f)
    ensures var bytes := FrameBytes(f);
      && |bytes| >= 20 && bytes[..4] == [0x55, 0x4D, 0x42, 0x50]
      && Holds(bytes, 4, 2, 3) && Holds(bytes, 8, 8, f.sequence) && Holds(bytes, 16, 4, |bytes| - 20)
      && exists opcode :: Holds(bytes, 6, 2, opcode) && LaidOut(f.message, opcode, bytes[20..])
  {
    hide PayloadBytes, Valid, LaidOut, FrameBytes, ToLE, FromLE;
    var h := HeaderOf(f);
    HeaderLaidOut(h, PayloadBytes(f.message));
    PayloadLayout(f.message);
    assert Holds(FrameBytes(f), 6, 2, Opcode(f.message));
  }

  lemma HeaderLaidOut(h: Header, payload: seq<Byte>)
    requires ValidHeader(h) && |payload| == h.length
    ensures var bytes := BytesOfHeader(h) + payload;
      && bytes[20..] == payload && bytes[..4] == [0x55, 0x4D, 0x42, 0x50]
      && Holds(bytes, 4, 2, 3) && Holds(bytes, 6, 2, h.opcode) && Holds(bytes, 8, 8, h.sequence)
      && Holds(bytes, 16, 4, h.length)
  {
    hide ToLE, FromLE;
    Pow256Values();
    FromToLE(PROTOCOL_VERSION, 2);
    FromToLE(h.opcode, 2);
    FromToLE(h.sequence, 8);
    FromToLE(h.length, 4);
    var bytes := BytesOfHeader(h) + payload;
    assert bytes[4..6] == ToLE(PROTOCOL_VERSION, 2) && bytes[6..8] == ToLE(h.opcode, 2);
    assert bytes[8..16] == ToLE(h.sequence, 8) && bytes[16..20] == ToLE(h.length, 4);
  }

  /** The rest of the stream after the one frame it can start with. */
  ghost predicate StartsWith(bytes: seq<Byte>, f: Frame, rest: seq<Byte>) {
    ValidFrame(f) && bytes == FrameBytes(f) + rest
  }

  lemma FrameParts(bytes: seq<Byte>, f: Frame, rest: seq<Byte>)
    requires StartsWith(bytes, f, rest)
    ensures bytes == BytesOfHeader(HeaderOf(f)) + (PayloadBytes(f.message) + rest)
  {
    hide HeaderBytes, PayloadBytes;
    Associate(BytesOfHeader(HeaderOf(f)), PayloadBytes(f.message), rest);
  }

  /** `read_frame`: accepts a stream exactly when it starts with a valid frame, and consumes just that frame. */
  method ReadFrame(channel: Channel) returns (r: Result<Frame, ProtocolError>)
    modifies channel
    ensures r.Ok? ==> StartsWith(old(channel.bytes), r.value, channel.bytes)
    ensures Benign(old(channel.script)) ==> Benign(channel.script)
    ensures Benign(old(channel.script)) ==>
        forall f, rest :: StartsWith(old(channel.bytes), f, rest) ==> r == Ok(f) && channel.bytes == rest
  {
    hide HeaderBytes, PayloadBytes, FrameBytes;
    ghost var all := old(channel.bytes);
    forall f, rest | StartsWith(all, f, rest)
      ensures all == BytesOfHeader(HeaderOf(f)) + (PayloadBytes(f.message) + rest)
    {
      FrameParts(all, f, rest);
    }
    var header :- ReadHeader(channel);
    ghost var body := channel.bytes;
    var payload :- ReadExactBounded(channel, header.length, PayloadPart);
    var message := DecodePayload(header.opcode, payload);
    if Benign(old(channel.script)) {
      forall f, rest | StartsWith(all, f, rest)
        ensures message == Some(f.message) && header.sequence == f.sequence && channel.bytes == rest
      {
        assert header == HeaderOf(f) && body == PayloadBytes(f.message) + rest;
        SplitEqual(payload, channel.bytes, PayloadBytes(f.message), rest);
        if message.Some? {
          PayloadInjective(message.value, f.message);
        }
      }
    }
    if message.None? {
      return Err(BadPayload(header.opcode));
    }
    var frame := Frame(header.sequence, message.value);
    Assemble(all, header, payload, frame, channel.bytes);
    return Ok(frame);
  }

  lemma Assemble(all: seq<Byte>, header: Header, payload: seq<Byte>, f: Frame, rest: seq<Byte>)
    requires ValidHeader(header) && ValidFrame(f) && f.sequence == header.sequence && Opcode(f.message) == header.opcode
    requires PayloadBytes(f.message) == payload && |payload| == header.length
    requires all == BytesOfHeader(header) + (payload + rest)
    ensures StartsWith(all, f, rest)
  {
    hide HeaderBytes, PayloadBytes;
    assert header == HeaderOf(f);
    Associate(BytesOfHeader(header), payload, rest);
  }

  /** Frames are a prefix code: a stream starts with at most one. */
  lemma OneFrame(bytes: seq<Byte>, f: Frame, rest: seq<Byte>, g: Frame, more: seq<Byte>)
    requires StartsWith(bytes, f, rest) && StartsWith(bytes, g, more)
    ensures f == g && rest == more
  {
    hide HeaderBytes, PayloadBytes, FromLE, FrameBytes;
    FrameParts(bytes, f, rest);
    FrameParts(bytes, g, more);
    SplitEqual(BytesOfHeader(HeaderOf(f)), PayloadBytes(f.message) + rest, BytesOfHeader(HeaderOf(g)),
               PayloadBytes(g.message) + more);
    HeaderFields(HeaderOf(f));
    HeaderFields(HeaderOf(g));
    SplitEqual(PayloadBytes(f.message), rest, PayloadBytes(g.message), more);
    PayloadInjective(f.message, g.message);
  }

  /** `decode_frame`: encoding and decoding are two-sided inverses. */
  method DecodeFrame(bytes: seq<Byte>) returns (r: Result<Frame, ProtocolError>)
    ensures forall f :: r == Ok(f) <==> ValidFrame(f) && bytes == FrameBytes(f)
  {
    hide FrameBytes;
    var cursor := new Channel(bytes, []);
    var read := ReadFrame(cursor);
    forall f | ValidFrame(f) && bytes == FrameBytes(f)
      ensures read == Ok(f) && cursor.bytes == []
    {
      assert StartsWith(bytes, f, []);
    }
    match read {
      case Err(error) => return Err(error);
      case Ok(frame) =>
        if cursor.bytes != [] {
          return Err(TrailingFrameBytes(|cursor.bytes|));
        }
        return Ok(frame);
    }
  }

  predicate AllValid(frames: seq<Frame>) {
    forall i :: 0 <= i < |frames| ==> ValidFrame(frames[i])
  }

  function Concat(frames: seq<Frame>): seq<Byte>
    requires AllValid(frames)
  {
    if frames == [] then [] else FrameBytes(frames[0]) + Concat(frames[1..])
  }

  /** A concatenation of frames decodes to the same frames, however the transport fragments or interrupts it. */
  method ReadFrames(channel: Channel, ghost frames: seq<Frame>, n: nat, ghost rest: seq<Byte>)
    returns (read: seq<Frame>)
    requires AllValid(frames) && n == |frames|
    requires channel.bytes == Concat(frames) + rest && Benign(channel.script)
    modifies channel
    ensures read == frames && channel.bytes == rest && Benign(channel.script)
  {
    hide FrameBytes;
    read := [];
    for i := 0 to n
      invariant read == frames[..i] && channel.bytes == Concat(frames[i..]) + rest && Benign(channel.script)
    {
      assert frames[i..][0] == frames[i] && frames[i..][1..] == frames[i + 1..];
      Associate(FrameBytes(frames[i]), Concat(frames[i + 1..]), rest);
      assert StartsWith(channel.bytes, frames[i], Concat(frames[i + 1..]) + rest);
      var r := ReadFrame(channel);
      read := read + [r.value];
    }
  }

  // ---------- Sequences ----------

  function Successor(sequence: U64): (next: Option<U64>)
    ensures next.Some? ==> next.value == sequence + 1
    ensures next.None? <==> sequence == U64_LIMIT - 1
  {
    if sequence + 1 < U64_LIMIT then Some(sequence + 1) else None
  }

  predicate ValidNext(next: Option<U64>) {
    next.Some? ==> next.value != 0
  }

  /** Independent, contiguous sequence spaces in the two directions. */
  class SessionCodec {
    var nextOutbound: Option<U64>
    var nextInbound: Option<U64>

    ghost predicate Valid()
      reads this
    {
      ValidNext(nextOutbound) && ValidNext(nextInbound)
    }

    constructor ()
      ensures Valid() && nextOutbound == Some(1) && nextInbound == Some(1)
    {
      nextOutbound, nextInbound := Some(1), Some(1);
    }

    /** Sends one frame with the next sequence, or sends nothing. */
    method WriteMessage(channel: Channel, message: Message) returns (r: Result<U64, ProtocolError>)
      requires Valid()
      modifies this`nextOutbound, channel`bytes
      ensures Valid()
      ensures r.Ok? <==> old(nextOutbound).Some? && BrokerMessages.Valid(message)
      ensures r.Ok? ==>
          Some(r.value) == old(nextOutbound) && nextOutbound == Successor(r.value) &&
          channel.bytes == old(channel.bytes) + FrameBytes(Frame(r.value, message))
      ensures r.Err? ==> nextOutbound == old(nextOutbound) && channel.bytes == old(channel.bytes)
      ensures r.Err? ==> r.error == if old(nextOutbound).None? then SequenceExhausted else InvalidMessage
    {
      if nextOutbound.None? {
        return Err(SequenceExhausted);
      }
      var sequence := nextOutbound.value;
      var frame :- EncodeFrame(sequence, message);
      channel.Write(frame);
      nextOutbound := Successor(sequence);
      return Ok(sequence);
    }

    /** Accepts exactly the next inbound frame; replays and gaps are errors that change no sequence. */
    method ReadMessage(channel: Channel) returns (r: Result<Frame, ProtocolError>)
      requires Valid()
      modifies this`nextInbound, channel
      ensures Valid()
      ensures r.Ok? ==>
          old(nextInbound) == Some(r.value.sequence) && nextInbound == Successor(r.value.sequence) &&
          StartsWith(old(channel.bytes), r.value, channel.bytes)
      ensures r.Err? ==> nextInbound == old(nextInbound)
      ensures old(nextInbound).None? ==> r == Err(SequenceExhausted) && channel.bytes == old(channel.bytes)
      ensures Benign(old(channel.script)) && old(nextInbound).Some? ==>
          var due := old(nextInbound).value;
          forall f, rest :: StartsWith(old(channel.bytes), f, rest) && f.sequence != due ==>
              r == Err(if f.sequence < due then Replay(f.sequence, due - 1) else OutOfSequence(due, f.sequence))
      ensures Benign(old(channel.script)) ==> Benign(channel.script)
      ensures Benign(old(channel.script)) ==>
          forall f, rest ::
            StartsWith(old(channel.bytes), f, rest) && old(nextInbound) == Some(f.sequence) ==>
              r == Ok(f) && channel.bytes == rest
    {
      hide FrameBytes;
      if nextInbound.None? {
        return Err(SequenceExhausted);
      }
      var expected := nextInbound.value;
      var frame :- ReadFrame(channel);
      if frame.sequence < expected {
        return Err(Replay(frame.sequence, expected - 1));
      }
      if frame.sequence > expected {
        return Err(OutOfSequence(expected, frame.sequence));
      }
      nextInbound := Successor(expected);
      return Ok(frame);
    }
  }
}
