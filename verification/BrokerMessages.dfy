/** The broker's message allowlist, bounds and payload layout (crates/broker-protocol/src/message.rs). */
module BrokerMessages {
  import opened Common
  import opened Arithmetic

  const MAX_READ_LEN: nat := 1024 * 1024
  const MAX_SOURCE_ID_LEN: nat := 128
  const MIN_SECTOR_SIZE: nat := 512
  const MAX_SECTOR_SIZE: nat := 1024 * 1024

  type Challenge = s: seq<Byte> | |s| == 32 witness Zeros(32)

  datatype BrokerErrorCode =
    | InvalidRequest
    | AuthenticationFailed
    | SourceNotFound
    | SourceIdentityMismatch
    | SourceUnavailable
    | InvalidHandle
    | ReadOutOfRange
    | ReadFailed
    | SourceChanged
    | InternalFailure

  datatype Message =
    | Hello(challenge: Challenge)
    | HelloAck(challenge: Challenge)
    | OpenSource(sourceId: seq<Byte>)
    | Opened(handleId: U64, size: U64, logicalSector: U32, physicalSector: U32, physicalDiskNumber: U32)
    | ReadAt(handleId: U64, offset: U64, length: U32)
    | ReadData(bytes: seq<Byte>)
    | CloseSource(handleId: U64)
    | Closed(handleId: U64)
    | Shutdown
    | Error(code: BrokerErrorCode)

  function Opcode(m: Message): (o: U16)
    ensures 1 <= o <= 10
  {
    match m
    case Hello(_) => 1
    case HelloAck(_) => 2
    case OpenSource(_) => 3
    case Opened(_, _, _, _, _) => 4
    case ReadAt(_, _, _) => 5
    case ReadData(_) => 6
    case CloseSource(_) => 7
    case Closed(_) => 8
    case Shutdown => 9
    case Error(_) => 10
  }

  function CodeNumber(code: BrokerErrorCode): (n: U16)
    ensures 1 <= n <= 10
  {
    match code
    case InvalidRequest => 1
    case AuthenticationFailed => 2
    case SourceNotFound => 3
    case SourceIdentityMismatch => 4
    case SourceUnavailable => 5
    case InvalidHandle => 6
    case ReadOutOfRange => 7
    case ReadFailed => 8
    case SourceChanged => 9
    case InternalFailure => 10
  }

  /** `BrokerErrorCode::try_from`: the inverse of the numbering, and nothing else is a code. */
  function CodeFromNumber(n: nat): (code: Option<BrokerErrorCode>)
    ensures code.Some? <==> 1 <= n <= 10
    ensures code.Some? ==> CodeNumber(code.value) == n
    ensures forall c :: CodeNumber(c) == n ==> code == Some(c)
  {
    match n
    case 1 => Some(InvalidRequest)
    case 2 => Some(AuthenticationFailed)
    case 3 => Some(SourceNotFound)
    case 4 => Some(SourceIdentityMismatch)
    case 5 => Some(SourceUnavailable)
    case 6 => Some(InvalidHandle)
    case 7 => Some(ReadOutOfRange)
    case 8 => Some(ReadFailed)
    case 9 => Some(SourceChanged)
    case 10 => Some(InternalFailure)
    case _ => None
  }

  predicate IsIdentifierByte(b: Byte) {
    0x30 <= b <= 0x39 || 0x41 <= b <= 0x5A || 0x61 <= b <= 0x7A || b == 0x2D || b == 0x5F || b == 0x2E || b == 0x7B ||
      b == 0x7D
  }

  predicate IsPowerOfTwo(n: nat) {
    n == 1 || (n > 1 && n % 2 == 0 && IsPowerOfTwo(n / 2))
  }

  predicate ValidSectorSize(n: nat) {
    MIN_SECTOR_SIZE <= n <= MAX_SECTOR_SIZE && IsPowerOfTwo(n)
  }

  /** `Message::validate`. */
  predicate Valid(m: Message) {
    match m
    case OpenSource(id) => 0 < |id| <= MAX_SOURCE_ID_LEN && forall b :: b in id ==> IsIdentifierByte(b)
    case Opened(handleId, size, logical, physical, _) =>
      handleId != 0 && size != 0 && ValidSectorSize(logical) && ValidSectorSize(physical) && logical <= physical &&
        physical % logical == 0
    case ReadAt(handleId, offset, length) => handleId != 0 && 0 < length <= MAX_READ_LEN && offset + length < U64_LIMIT
    case ReadData(bytes) => |bytes| <= MAX_READ_LEN
    case CloseSource(handleId) => handleId != 0
    case Closed(handleId) => handleId != 0
    case _ => true
  }

  /** The alphabet of identifiers, the twelve sector sizes, and the bounds, each written out. */
  predicate WellFormed(m: Message) {
    match m
    case OpenSource(id) =>
      1 <= |id| <= 128 && forall i :: 0 <= i < |id| ==>
        || '0' as int <= id[i] <= '9' as int || 'A' as int <= id[i] <= 'Z' as int || 'a' as int <= id[i] <= 'z' as int
        || id[i] in {'-' as int, '_' as int, '.' as int, '{' as int, '}' as int}
    case Opened(handleId, size, logical, physical, _) =>
      && 1 <= handleId && 1 <= size && logical <= physical
      && SectorSize(logical) && SectorSize(physical)
    case ReadAt(handleId, offset, length) => 1 <= handleId && 1 <= length <= 1048576 && offset + length < U64_LIMIT
    case ReadData(bytes) => |bytes| <= 1048576
    case CloseSource(handleId) => 1 <= handleId
    case Closed(handleId) => 1 <= handleId
    case _ => true
  }

  function Pow2(k: nat): (p: nat)
    ensures p > 0
  {
    if k == 0 then 1 else 2 * Pow2(k - 1)
  }

  lemma {:induction false} PowerOfTwo(k: nat)
    ensures IsPowerOfTwo(Pow2(k))
  {
    if k > 0 {
      PowerOfTwo(k - 1);
    }
  }

  lemma {:induction false} Exponent(n: nat) returns (k: nat)
    requires IsPowerOfTwo(n)
    ensures n == Pow2(k)
  {
    if n == 1 {
      k := 0;
    } else {
      k := Exponent(n / 2);
      k := k + 1;
    }
  }

  lemma {:induction false} Pow2Grows(j: nat, k: nat)
    requires j < k
    ensures 2 * Pow2(j) <= Pow2(k)
    decreases k
  {
    if j + 1 < k {
      Pow2Grows(j, k - 1);
    }
  }

  lemma Pow2Values()
    ensures Pow2(9) == 512 && Pow2(10) == 1024 && Pow2(11) == 2048 && Pow2(12) == 4096 && Pow2(13) == 8192
    ensures Pow2(14) == 16384 && Pow2(15) == 32768 && Pow2(16) == 65536 && Pow2(17) == 131072 && Pow2(18) == 262144
    ensures Pow2(19) == 524288 && Pow2(20) == 1048576
  {
    assert Pow2(3) == 8;
    assert Pow2(6) == 8 * Pow2(3);
    assert Pow2(9) == 8 * Pow2(6);
    assert Pow2(12) == 8 * Pow2(9);
    assert Pow2(15) == 8 * Pow2(12);
    assert Pow2(18) == 8 * Pow2(15);
  }

  predicate SectorSize(n: nat) {
    n in {512, 1024, 2048, 4096, 8192, 16384, 32768, 65536, 131072, 262144, 524288, 1048576}
  }

  lemma SectorSizes(n: nat)
    ensures ValidSectorSize(n) <==> SectorSize(n)
  {
    Pow2Values();
    if ValidSectorSize(n) {
      var k := Exponent(n);
      hide Pow2, IsPowerOfTwo;
      if k < 9 {
        Pow2Grows(k, 9);
      }
      if k > 20 {
        Pow2Grows(20, k);
      }
    }
    if SectorSize(n) {
      hide Pow2, IsPowerOfTwo;
      forall k: nat
        ensures IsPowerOfTwo(Pow2(k))
      {
        PowerOfTwo(k);
      }
    }
  }

  lemma {:induction false} PowersDivide(small: nat, large: nat)
    requires IsPowerOfTwo(small) && IsPowerOfTwo(large) && small <= large
    ensures large % small == 0
  {
    if small > 1 {
      PowersDivide(small / 2, large / 2);
      var q := large / 2 / (small / 2);
      assert large / 2 == (small / 2) * q;
      DivisionUnique(large, small, q, 0);
    }
  }

  lemma ValidIsWellFormed(m: Message)
    ensures Valid(m) <==> WellFormed(m)
  {
    match m
    case OpenSource(id) => assert forall i :: 0 <= i < |id| ==> id[i] in id;
    case Opened(handleId, size, logical, physical, _) =>
      SectorSizes(logical);
      SectorSizes(physical);
      if SectorSize(logical) && SectorSize(physical) && logical <= physical {
        PowersDivide(logical, physical);
      }
    case _ =>
  }

  /** The payload layout. */
  function PayloadBytes(m: Message): (s: seq<Byte>)
  {
    match m
    case Hello(challenge) => challenge
    case HelloAck(challenge) => challenge
    case OpenSource(id) => ToLE(|id|, 2) + id
    case Opened(handleId, size, logical, physical, disk) =>
      ToLE(handleId, 8) + ToLE(size, 8) + ToLE(logical, 4) + ToLE(physical, 4) + ToLE(disk, 4)
    case ReadAt(handleId, offset, length) => ToLE(handleId, 8) + ToLE(offset, 8) + ToLE(length, 4)
    case ReadData(bytes) => bytes
    case CloseSource(handleId) => ToLE(handleId, 8)
    case Closed(handleId) => ToLE(handleId, 8)
    case Shutdown => []
    case Error(code) => ToLE(CodeNumber(code), 2)
  }

  lemma ValidPayloadFits(m: Message)
    requires Valid(m)
    ensures |PayloadBytes(m)| <= MAX_READ_LEN
  {
  }

  /** The `size` bytes at `at` are the little-endian `value`. */
  predicate Holds(bytes: seq<Byte>, at: nat, size: nat, value: nat) {
    at + size <= |bytes| && FromLE(bytes[at..at + size]) == value
  }

  /** Opcode and payload by position. */
  predicate LaidOut(m: Message, opcode: nat, payload: seq<Byte>) {
    match m
    case Hello(challenge) => opcode == 1 && payload == challenge
    case HelloAck(challenge) => opcode == 2 && payload == challenge
    case OpenSource(id) => opcode == 3 && Holds(payload, 0, 2, |id|) && payload[2..] == id
    case Opened(handleId, size, logical, physical, disk) =>
      && opcode == 4 && |payload| == 28 && Holds(payload, 0, 8, handleId) && Holds(payload, 8, 8, size)
      && Holds(payload, 16, 4, logical) && Holds(payload, 20, 4, physical) && Holds(payload, 24, 4, disk)
    case ReadAt(handleId, offset, length) =>
      && opcode == 5 && |payload| == 20
      && Holds(payload, 0, 8, handleId) && Holds(payload, 8, 8, offset) && Holds(payload, 16, 4, length)
    case ReadData(bytes) => opcode == 6 && payload == bytes
    case CloseSource(handleId) => opcode == 7 && |payload| == 8 && Holds(payload, 0, 8, handleId)
    case Closed(handleId) => opcode == 8 && |payload| == 8 && Holds(payload, 0, 8, handleId)
    case Shutdown => opcode == 9 && payload == []
    case Error(code) => opcode == 10 && |payload| == 2 && Holds(payload, 0, 2, CodeNumber(code))
  }

  lemma OpenedLaidOut(handleId: U64, size: U64, logical: U32, physical: U32, disk: U32)
    ensures var m := Opened(handleId, size, logical, physical, disk); LaidOut(m, Opcode(m), PayloadBytes(m))
  {
    hide ToLE, FromLE;
    Pow256Values();
    var a, b, c, d, e := ToLE(handleId, 8), ToLE(size, 8), ToLE(logical, 4), ToLE(physical, 4), ToLE(disk, 4);
    var all := a + b + c + d + e;
    assert all[0..8] == a && all[8..16] == b && all[16..20] == c && all[20..24] == d && all[24..28] == e;
    FromToLE(handleId, 8);
    FromToLE(size, 8);
    FromToLE(logical, 4);
    FromToLE(physical, 4);
    FromToLE(disk, 4);
  }

  lemma ReadAtLaidOut(handleId: U64, offset: U64, length: U32)
    ensures var m := ReadAt(handleId, offset, length); LaidOut(m, Opcode(m), PayloadBytes(m))
  {
    hide ToLE, FromLE;
    Pow256Values();
    var a, b, c := ToLE(handleId, 8), ToLE(offset, 8), ToLE(length, 4);
    var all := a + b + c;
    assert all[0..8] == a && all[8..16] == b && all[16..20] == c;
    FromToLE(handleId, 8);
    FromToLE(offset, 8);
    FromToLE(length, 4);
  }

  /** Every valid message has its opcode and each field at its place. */
  lemma PayloadLayout(m: Message)
    requires Valid(m)
    ensures LaidOut(m, Opcode(m), PayloadBytes(m))
  {
    hide ToLE, FromLE;
    Pow256Values();
    match m
    case OpenSource(id) =>
      FromToLE(|id|, 2);
      assert (ToLE(|id|, 2) + id)[0..2] == ToLE(|id|, 2) && (ToLE(|id|, 2) + id)[2..] == id;
    case Opened(handleId, size, logical, physical, disk) => OpenedLaidOut(handleId, size, logical, physical, disk);
    case ReadAt(handleId, offset, length) => ReadAtLaidOut(handleId, offset, length);
    case CloseSource(handleId) => WholeField(handleId, 8);
    case Closed(handleId) => WholeField(handleId, 8);
    case Error(code) => WholeField(CodeNumber(code), 2);
    case _ =>
  }

  lemma WholeField(value: nat, size: nat)
    requires value < Pow256(size)
    ensures Holds(ToLE(value, size), 0, size, value)
  {
    FromToLE(value, size);
    assert ToLE(value, size)[0..size] == ToLE(value, size);
  }

  /** A cursor over one payload (codec.rs:379-479). */
  class PayloadReader {
    const bytes: seq<Byte>
    var position: nat

    ghost predicate Within()
      reads this`position
    {
      position <= |bytes|
    }

    constructor (bytes: seq<Byte>)
      ensures this.bytes == bytes && position == 0 && Within()
    {
      this.bytes := bytes;
      position := 0;
    }

    method Take(length: nat) returns (r: Option<seq<Byte>>)
      requires Within()
      modifies this`position
      ensures Within()
      ensures r.Some? <==> old(position) + length <= |bytes|
      ensures r.Some? ==> position == old(position) + length && r.value == bytes[old(position)..position]
      ensures r.None? ==> position == old(position)
    {
      var end := position + length;
      if end > |bytes| {
        return None;
      }
      r := Some(bytes[position..end]);
      position := end;
    }

    /** A little-endian integer of `width` bytes: the only number whose encoding stands here. */
    method TakeInteger(width: nat) returns (r: Option<nat>)
      requires Within()
      modifies this`position
      ensures Within()
      ensures r.Some? <==> old(position) + width <= |bytes|
      ensures r.Some? ==> position == old(position) + width && r.value < Pow256(width)
      ensures r.Some? ==> ToLE(r.value, width) == bytes[old(position)..position]
      ensures r.None? ==> position == old(position)
    {
      var taken := Take(width);
      if taken.None? {
        return None;
      }
      FromLEBound(taken.value);
      ToFromLE(taken.value);
      return Some(FromLE(taken.value));
    }
  }

  /** The result is the one valid message with this opcode and payload, or there is none. */
  ghost predicate Decodes(opcode: nat, payload: seq<Byte>, r: Option<Message>) {
    match r
    case Some(m) => Valid(m) && Opcode(m) == opcode && PayloadBytes(m) == payload
    case None => forall m: Message :: Valid(m) && Opcode(m) == opcode ==> PayloadBytes(m) != payload
  }

  /** One payload belongs to one message of its opcode. */
  lemma PayloadInjective(a: Message, b: Message)
    requires Opcode(a) == Opcode(b) && PayloadBytes(a) == PayloadBytes(b)
    requires a.OpenSource? ==> |a.sourceId| < U16_LIMIT && |b.sourceId| < U16_LIMIT
    ensures a == b
  {
    Pow256Values();
    match a
    case OpenSource(id) =>
      SplitEqual(ToLE(|id|, 2), id, ToLE(|b.sourceId|, 2), b.sourceId);
    case Opened(_, _, _, _, _) => OpenedInjective(a, b);
    case ReadAt(_, _, _) => ReadAtInjective(a, b);
    case CloseSource(handleId) => SameInteger(handleId, b.handleId, 8);
    case Closed(handleId) => SameInteger(handleId, b.handleId, 8);
    case Error(code) => SameInteger(CodeNumber(code), CodeNumber(b.code), 2);
    case _ =>
  }

  lemma OpenedInjective(a: Message, b: Message)
    requires a.Opened? && b.Opened? && PayloadBytes(a) == PayloadBytes(b)
    ensures a == b
  {
    hide ToLE;
    Pow256Values();
    var h, s, l, p, d :=
      ToLE(a.handleId, 8), ToLE(a.size, 8), ToLE(a.logicalSector, 4), ToLE(a.physicalSector, 4),
      ToLE(a.physicalDiskNumber, 4);
    var h', s', l', p', d' :=
      ToLE(b.handleId, 8), ToLE(b.size, 8), ToLE(b.logicalSector, 4), ToLE(b.physicalSector, 4),
      ToLE(b.physicalDiskNumber, 4);
    SplitEqual(h + s + l + p, d, h' + s' + l' + p', d');
    SplitEqual(h + s + l, p, h' + s' + l', p');
    SplitEqual(h + s, l, h' + s', l');
    SplitEqual(h, s, h', s');
    SameInteger(a.handleId, b.handleId, 8);
    SameInteger(a.size, b.size, 8);
    SameInteger(a.logicalSector, b.logicalSector, 4);
    SameInteger(a.physicalSector, b.physicalSector, 4);
    SameInteger(a.physicalDiskNumber, b.physicalDiskNumber, 4);
  }

  lemma ReadAtInjective(a: Message, b: Message)
    requires a.ReadAt? && b.ReadAt? && PayloadBytes(a) == PayloadBytes(b)
    ensures a == b
  {
    hide ToLE;
    Pow256Values();
    var h, o, l := ToLE(a.handleId, 8), ToLE(a.offset, 8), ToLE(a.length, 4);
    var h', o', l' := ToLE(b.handleId, 8), ToLE(b.offset, 8), ToLE(b.length, 4);
    SplitEqual(h + o, l, h' + o', l');
    SplitEqual(h, o, h', o');
    SameInteger(a.handleId, b.handleId, 8);
    SameInteger(a.offset, b.offset, 8);
    SameInteger(a.length, b.length, 4);
  }

  /** A candidate that carries the payload but fails its bounds: no other message of the opcode is valid either. */
  lemma OnlyCandidate(opcode: nat, payload: seq<Byte>, candidate: Message)
    requires Opcode(candidate) == opcode && PayloadBytes(candidate) == payload
    requires candidate.OpenSource? ==> |candidate.sourceId| < U16_LIMIT
    ensures Decodes(opcode, payload, if Valid(candidate) then Some(candidate) else None)
  {
    forall m: Message | Valid(m) && Opcode(m) == opcode && PayloadBytes(m) == payload
      ensures m == candidate
    {
      PayloadInjective(m, candidate);
    }
  }

  lemma WrongLength(opcode: nat, payload: seq<Byte>)
    requires opcode == 1 || opcode == 2 ==> |payload| != 32
    requires opcode == 4 ==> |payload| != 28
    requires opcode == 5 ==> |payload| != 20
    requires opcode == 7 || opcode == 8 ==> |payload| != 8
    requires opcode == 9 ==> |payload| != 0
    requires opcode == 10 ==> |payload| != 2
    requires opcode != 3 && opcode != 6
    ensures Decodes(opcode, payload, None)
  {
  }

  /** `decode_payload` for the two handle-only opcodes. */
  method DecodeHandle(opcode: nat, payload: seq<Byte>) returns (r: Option<Message>)
    requires opcode == 7 || opcode == 8
    ensures Decodes(opcode, payload, r)
  {
    Pow256Values();
    var reader := new PayloadReader(payload);
    var handleId := reader.TakeInteger(8);
    if handleId.None? || reader.position != |payload| {
      WrongLength(opcode, payload);
      return None;
    }
    assert payload[0..8] == payload;
    var m := if opcode == 7 then CloseSource(handleId.value) else Closed(handleId.value);
    OnlyCandidate(opcode, payload, m);
    return if Valid(m) then Some(m) else None;
  }

  method DecodeOpened(payload: seq<Byte>) returns (r: Option<Message>)
    ensures Decodes(4, payload, r)
  {
    hide ToLE, Decodes;
    Pow256Values();
    if |payload| != 28 {
      WrongLength(4, payload);
      return None;
    }
    var reader := new PayloadReader(payload);
    var handleId := reader.TakeInteger(8);
    var size := reader.TakeInteger(8);
    var logical := reader.TakeInteger(4);
    var physical := reader.TakeInteger(4);
    var disk := reader.TakeInteger(4);
    var m := Opened(handleId.value, size.value, logical.value, physical.value, disk.value);
    assert payload == payload[0..8] + payload[8..16] + payload[16..20] + payload[20..24] + payload[24..28];
    OnlyCandidate(4, payload, m);
    return if Valid(m) then Some(m) else None;
  }

  method DecodeReadAt(payload: seq<Byte>) returns (r: Option<Message>)
    ensures Decodes(5, payload, r)
  {
    hide ToLE, Decodes;
    Pow256Values();
    if |payload| != 20 {
      WrongLength(5, payload);
      return None;
    }
    var reader := new PayloadReader(payload);
    var handleId := reader.TakeInteger(8);
    var offset := reader.TakeInteger(8);
    var length := reader.TakeInteger(4);
    var m := ReadAt(handleId.value, offset.value, length.value);
    assert payload == payload[0..8] + payload[8..16] + payload[16..20];
    OnlyCandidate(5, payload, m);
    return if Valid(m) then Some(m) else None;
  }

  method DecodeOpenSource(payload: seq<Byte>) returns (r: Option<Message>)
    ensures Decodes(3, payload, r)
  {
    Pow256Values();
    var reader := new PayloadReader(payload);
    var length := reader.TakeInteger(2);
    if length.None? {
      return None;
    }
    forall m: Message | Valid(m) && Opcode(m) == 3 && PayloadBytes(m) == payload
      ensures |m.sourceId| == length.value && |payload| == 2 + length.value
    {
      assert payload[0..2] == ToLE(|m.sourceId|, 2);
      SameInteger(|m.sourceId|, length.value, 2);
    }
    if length.value > MAX_SOURCE_ID_LEN {
      return None;
    }
    var id := reader.Take(length.value);
    if id.None? || reader.position != |payload| {
      return None;
    }
    assert payload == payload[0..2] + id.value;
    var m := OpenSource(id.value);
    OnlyCandidate(3, payload, m);
    return if Valid(m) then Some(m) else None;
  }

  /** `decode_payload`: strict, so accepted payloads are exactly the encodings of valid messages. */
  method DecodePayload(opcode: nat, payload: seq<Byte>) returns (r: Option<Message>)
    requires 1 <= opcode <= 10
    ensures Decodes(opcode, payload, r)
  {
    match opcode {
      case 1 =>
        r := if |payload| == 32 then Some(Hello(payload)) else None;
      case 2 =>
        r := if |payload| == 32 then Some(HelloAck(payload)) else None;
      case 3 =>
        r := DecodeOpenSource(payload);
      case 4 =>
        r := DecodeOpened(payload);
      case 5 =>
        r := DecodeReadAt(payload);
      case 6 =>
        r := if |payload| <= MAX_READ_LEN then Some(ReadData(payload)) else None;
      case 9 =>
        r := if payload == [] then Some(Shutdown) else None;
      case 10 =>
        r := DecodeError(payload);
      case _ =>
        r := DecodeHandle(opcode, payload);
    }
  }

  method DecodeError(payload: seq<Byte>) returns (r: Option<Message>)
    ensures Decodes(10, payload, r)
  {
    Pow256Values();
    var reader := new PayloadReader(payload);
    var number := reader.TakeInteger(2);
    if number.None? || reader.position != |payload| {
      WrongLength(10, payload);
      return None;
    }
    assert payload[0..2] == payload;
    var code := CodeFromNumber(number.value);
    match code {
      case Some(c) =>
        OnlyCandidate(10, payload, Error(c));
        return Some(Error(c));
      case None =>
        forall m: Message | Valid(m) && Opcode(m) == 10 && PayloadBytes(m) == payload
          ensures CodeNumber(m.code) == number.value
        {
          SameInteger(CodeNumber(m.code), number.value, 2);
        }
        return None;
    }
  }
}
