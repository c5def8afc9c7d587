/** The hash-chained recovery journal at the level of its records (crates/restore/src/journal.rs). */
module Journal {
  import opened Common

  const JOURNAL_VERSION: nat := 1
  const MAX_JOURNAL_PAYLOAD_BYTES: nat := 1024 * 1024
  const MAX_JOURNAL_RECORD_BYTES: nat := MAX_JOURNAL_PAYLOAD_BYTES + 4096
  const MAX_JOURNAL_RECORDS: nat := 1_000_000

  type Digest = s: seq<Byte> | |s| == 32 witness Zeros(32)

  /** The bytes of a text in UTF-8. */
  type Text = seq<Byte>

  /** "undelete-master-journal-record-v1" and a zero byte. */
  const HASH_DOMAIN: seq<Byte> := [
    0x75, 0x6E, 0x64, 0x65, 0x6C, 0x65, 0x74, 0x65, 0x2D, 0x6D, 0x61, 0x73, 0x74, 0x65, 0x72, 0x2D,
    0x6A, 0x6F, 0x75, 0x72, 0x6E, 0x61, 0x6C, 0x2D, 0x72, 0x65, 0x63, 0x6F, 0x72, 0x64, 0x2D, 0x76, 0x31, 0x00]

  // ---------- Hash text ----------

  function HexDigit(n: nat): Byte
    requires n < 16
  {
    if n < 10 then 0x30 + n else 0x61 + (n - 10)
  }

  function HexLower(bytes: seq<Byte>): (text: Text)
    ensures |text| == 2 * |bytes|
  {
    if bytes == [] then []
    else HexLower(bytes[..|bytes| - 1]) + [HexDigit(bytes[|bytes| - 1] / 16), HexDigit(bytes[|bytes| - 1] % 16)]
  }

  /** A digit in either case. */
  function DigitValue(c: Byte): Option<nat> {
    if 0x30 <= c <= 0x39 then Some(c - 0x30)
    else if 0x61 <= c <= 0x66 then Some(c - 0x61 + 10)
    else if 0x41 <= c <= 0x46 then Some(c - 0x41 + 10)
    else None
  }

  /** `u8::from_str_radix(pair, 16)`: either case, and a plus sign in place of the first digit. */
  function PairValue(first: Byte, second: Byte): (r: Option<Byte>) {
    if DigitValue(second).None? then None
    else if first == 0x2B then Some(DigitValue(second).value)
    else if DigitValue(first).None? then None
    else Some(DigitValue(first).value * 16 + DigitValue(second).value)
  }

  function DecodePairs(text: Text): (r: Option<seq<Byte>>)
    requires |text| % 2 == 0
    ensures r.Some? ==> |r.value| * 2 == |text|
  {
    if text == [] then Some([])
    else
      var rest := DecodePairs(text[..|text| - 2]);
      var last := PairValue(text[|text| - 2], text[|text| - 1]);
      if rest.None? || last.None? then None else Some(rest.value + [last.value])
  }

  function DecodeHash(text: Text): Option<Digest> {
    if |text| != 64 then None else DecodePairs(text)
  }

  /** A byte that continues a character: a text cannot be cut before it. */
  predicate IsContinuation(c: Byte) {
    0x80 <= c < 0xC0
  }

  /**
   * `decode_hash` cuts its text every two bytes and panics when a cut falls inside a character: when the pairs before
   * are digits and the next one ends inside a character.
   */
  ghost predicate DecodePanics(text: Text) {
    |text| == 64 && exists i: nat :: CutsCharacter(text, i)
  }

  ghost predicate CutsCharacter(text: Text, i: nat) {
    && 2 * i + 2 < |text| && IsContinuation(text[2 * i + 2])
    && forall j: nat :: j < i ==> PairValue(text[2 * j], text[2 * j + 1]).Some?
  }

  /** The decoder, as far as it gets: the first pair that is no number, or that no cut can be made after, decides. */
  method TryDecodeHash(text: Text) returns (r: Option<Digest>, panicked: bool)
    ensures panicked <==> DecodePanics(text)
    ensures r == DecodeHash(text)
  {
    if |text| != 64 {
      return None, false;
    }
    var bytes: seq<Byte> := [];
    assert text[..0] == [];
    for i := 0 to 32
      invariant |bytes| == i && DecodePairs(text[..2 * i]) == Some(bytes)
      invariant forall j: nat :: j < i ==> PairValue(text[2 * j], text[2 * j + 1]).Some?
      invariant forall j: nat :: j < i ==> !CutsCharacter(text, j)
    {
      hide DecodePairs, PairValue, CutsCharacter;
      assert text[..2 * i + 2] == text[..2 * i] + [text[2 * i], text[2 * i + 1]];
      DecodeSnoc(text[..2 * i], text[2 * i], text[2 * i + 1]);
      if i < 31 && IsContinuation(text[2 * i + 2]) {
        CutAt(text, i);
        return None, true;
      }
      NoCutAt(text, i);
      var value := PairValue(text[2 * i], text[2 * i + 1]);
      if value.None? {
        StopsAt(text, i);
        return None, false;
      }
      bytes := bytes + [value.value];
    }
    assert text[..64] == text;
    NoCutPast(text);
    return Some(bytes), false;
  }

  lemma CutAt(text: Text, i: nat)
    requires |text| == 64 && i < 31 && IsContinuation(text[2 * i + 2])
    requires forall j: nat :: j < i ==> PairValue(text[2 * j], text[2 * j + 1]).Some?
    ensures DecodePanics(text) && DecodeHash(text).None?
  {
    assert CutsCharacter(text, i);
    PairFails(text, i + 1);
  }

  lemma NoCutAt(text: Text, i: nat)
    requires |text| == 64 && !(i < 31 && IsContinuation(text[2 * i + 2]))
    ensures !CutsCharacter(text, i)
  {
  }

  lemma NoCutPast(text: Text)
    requires |text| == 64 && forall j: nat :: j < 32 ==> !CutsCharacter(text, j)
    ensures !DecodePanics(text)
  {
  }

  lemma StopsAt(text: Text, i: nat)
    requires |text| == 64 && i < 32 && PairValue(text[2 * i], text[2 * i + 1]).None?
    requires forall j: nat :: j <= i ==> !CutsCharacter(text, j)
    ensures !DecodePanics(text) && DecodeHash(text).None?
  {
    PairFails(text, i);
  }

  /** One pair that is no number spoils the whole text. */
  lemma {:induction false} PairFails(text: Text, i: nat)
    requires |text| % 2 == 0 && 2 * i + 1 < |text| && PairValue(text[2 * i], text[2 * i + 1]).None?
    ensures DecodePairs(text).None?
    decreases |text|
  {
    hide PairValue;
    if 2 * i + 2 < |text| {
      PairFails(text[..|text| - 2], i);
    }
  }

  lemma DecodedNeverPanics(text: Text)
    ensures DecodeHash(text).Some? ==> !DecodePanics(text)
  {
    if DecodePanics(text) {
      var i: nat :| CutsCharacter(text, i);
      CutAt(text, i);
    }
  }

  /** Written hashes read back as the digest they encode; hence the text of a digest is unique. */
  lemma {:induction false} HexRoundTrip(bytes: seq<Byte>)
    ensures DecodePairs(HexLower(bytes)) == Some(bytes)
  {
    NoText();
    hide DecodePairs, HexLower, HexPair;
    if bytes != [] {
      var rest, last := bytes[..|bytes| - 1], bytes[|bytes| - 1];
      HexRoundTrip(rest);
      HexSnoc(rest, last);
      DecodeLast(HexLower(rest), rest, last);
      assert bytes == rest + [last];
    }
  }

  lemma NoText()
    ensures HexLower([]) == [] && DecodePairs([]) == Some([])
  {
  }

  function HexPair(b: Byte): (pair: Text)
    ensures |pair| == 2
  {
    [HexDigit(b / 16), HexDigit(b % 16)]
  }

  lemma HexSnoc(rest: seq<Byte>, last: Byte)
    ensures HexLower(rest + [last]) == HexLower(rest) + HexPair(last)
  {
    assert (rest + [last])[..|rest|] == rest;
  }

  lemma DecodeLast(text: Text, bytes: seq<Byte>, last: Byte)
    requires |text| % 2 == 0 && DecodePairs(text) == Some(bytes)
    ensures DecodePairs(text + HexPair(last)) == Some(bytes + [last])
  {
    DigitsRoundTrip(last);
    hide PairValue, HexDigit, DecodePairs;
    DecodeSnoc(text, HexPair(last)[0], HexPair(last)[1]);
    assert HexPair(last) == [HexPair(last)[0], HexPair(last)[1]];
  }

  lemma DigitsRoundTrip(b: Byte)
    ensures PairValue(HexDigit(b / 16), HexDigit(b % 16)) == Some(b)
  {
    var hi, lo := b / 16, b % 16;
    assert DigitValue(HexDigit(hi)) == Some(hi) && DigitValue(HexDigit(lo)) == Some(lo);
  }

  lemma DecodeSnoc(text: Text, first: Byte, second: Byte)
    requires |text| % 2 == 0
    ensures DecodePairs(text + [first, second]) ==
        if DecodePairs(text).None? || PairValue(first, second).None? then None
        else Some(DecodePairs(text).value + [PairValue(first, second).value])
  {
    assert (text + [first, second])[..|text + [first, second]| - 2] == text;
  }

  lemma HexInjective(a: Digest, b: Digest)
    requires HexLower(a) == HexLower(b)
    ensures a == b
  {
    HexRoundTrip(a);
    HexRoundTrip(b);
  }

  // ---------- Spellings of a digest ----------

  predicate IsLowerDigit(c: Byte) {
    0x30 <= c <= 0x39 || 0x61 <= c <= 0x66
  }

  /** Only 0-9 and a-f. */
  predicate IsLowerText(t: Text) {
    forall i :: 0 <= i < |t| ==> IsLowerDigit(t[i])
  }

  lemma LowerPair(first: Byte, second: Byte)
    requires PairValue(first, second).Some?
    ensures var v := PairValue(first, second).value;
      (first == HexDigit(v / 16) && second == HexDigit(v % 16)) <==> IsLowerDigit(first) && IsLowerDigit(second)
  {
  }

  /** Of all the texts that decode to a digest, the one this code writes is exactly the lower-case one. */
  lemma {:induction false} WrittenIffLower(t: Text)
    requires |t| % 2 == 0 && DecodePairs(t).Some?
    ensures t == HexLower(DecodePairs(t).value) <==> IsLowerText(t)
    decreases |t|
  {
    if t != [] {
      var rest, first, second := t[..|t| - 2], t[|t| - 2], t[|t| - 1];
      var bytes := DecodePairs(t).value;
      assert t == rest + [first, second];
      assert bytes[..|bytes| - 1] == DecodePairs(rest).value;
      WrittenIffLower(rest);
      LowerPair(first, second);
      WrittenSnoc(rest, first, second, bytes);
      assert IsLowerText(t) <==> IsLowerText(rest) && IsLowerDigit(first) && IsLowerDigit(second);
    }
  }

  lemma WrittenSnoc(rest: Text, first: Byte, second: Byte, bytes: seq<Byte>)
    requires bytes != [] && |rest| == 2 * (|bytes| - 1)
    ensures var last := bytes[|bytes| - 1];
      rest + [first, second] == HexLower(bytes) <==>
        rest == HexLower(bytes[..|bytes| - 1]) && first == HexDigit(last / 16) && second == HexDigit(last % 16)
  {
    var last := bytes[|bytes| - 1];
    var written := HexLower(bytes[..|bytes| - 1]);
    if rest + [first, second] == HexLower(bytes) {
      SplitEqual(rest, [first, second], written, [HexDigit(last / 16), HexDigit(last % 16)]);
      assert [first, second][0] == [HexDigit(last / 16), HexDigit(last % 16)][0];
      assert [first, second][1] == [HexDigit(last / 16), HexDigit(last % 16)][1];
    }
  }

  /** The same pair `n` times over. */
  function Repeat(first: Byte, second: Byte, n: nat): (t: Text)
    ensures |t| == 2 * n
    ensures forall i :: 0 <= i < |t| ==> t[i] == first || t[i] == second
  {
    if n == 0 then [] else Repeat(first, second, n - 1) + [first, second]
  }

  function RepeatByte(b: Byte, n: nat): (bytes: seq<Byte>)
    ensures |bytes| == n
  {
    if n == 0 then [] else RepeatByte(b, n - 1) + [b]
  }

  lemma {:induction false} RepeatDecodes(first: Byte, second: Byte, n: nat)
    requires PairValue(first, second).Some?
    ensures DecodePairs(Repeat(first, second, n)) == Some(RepeatByte(PairValue(first, second).value, n))
    ensures n > 0 ==> Repeat(first, second, n)[2 * n - 2] == first
  {
    RepeatStep(first, second, PairValue(first, second).value, n);
    if n > 0 {
      hide DecodePairs, PairValue, Repeat, RepeatByte;
      RepeatDecodes(first, second, n - 1);
      DecodeSnoc(Repeat(first, second, n - 1), first, second);
    } else {
      assert DecodePairs([]) == Some([]);
    }
  }

  lemma RepeatStep(first: Byte, second: Byte, b: Byte, n: nat)
    ensures n == 0 ==> Repeat(first, second, n) == [] && RepeatByte(b, n) == []
    ensures n > 0 ==> Repeat(first, second, n) == Repeat(first, second, n - 1) + [first, second]
    ensures n > 0 ==> RepeatByte(b, n) == RepeatByte(b, n - 1) + [b]
  {
  }

  /** A digest whose bytes are all AB, in small letters and in capitals. */
  lemma SpellingNotUnique(n: nat) returns (small: Text, capital: Text)
    requires n == 32
    ensures small == Repeat(0x61, 0x62, n) && capital == Repeat(0x41, 0x42, n) && small != capital
    ensures DecodeHash(small) == DecodeHash(capital) == Some(RepeatByte(0xAB, n))
  {
    assert PairValue(0x61, 0x62) == PairValue(0x41, 0x42) == Some(0xAB);
    hide Repeat, RepeatByte, DecodePairs, PairValue;
    RepeatDecodes(0x61, 0x62, n);
    RepeatDecodes(0x41, 0x42, n);
    small, capital := Repeat(0x61, 0x62, n), Repeat(0x41, 0x42, n);
  }

  /** A digest whose bytes are all 07, with a zero and with a plus sign as the first digit. */
  lemma SignNotUnique(n: nat) returns (zero: Text, plus: Text)
    requires n == 32
    ensures zero == Repeat(0x30, 0x37, n) && plus == Repeat(0x2B, 0x37, n) && zero != plus
    ensures DecodeHash(zero) == DecodeHash(plus) == Some(RepeatByte(7, n))
  {
    assert PairValue(0x30, 0x37) == PairValue(0x2B, 0x37) == Some(7);
    hide Repeat, RepeatByte, DecodePairs, PairValue;
    RepeatDecodes(0x30, 0x37, n);
    RepeatDecodes(0x2B, 0x37, n);
    zero, plus := Repeat(0x30, 0x37, n), Repeat(0x2B, 0x37, n);
  }

  // ---------- Records ----------

  datatype Record = Record(
    version: nat, jobIdSha256: Text, sequence: nat, previousHash: Text, kind: Text, payloadLength: nat,
    payload: seq<Byte>,
    recordHash: Text)

  /**
   * One line of the file: a canonical record, or anything else, such as what a failed write left behind. Some lines
   * have the file refused at once: those without a line end, and those that are not UTF-8.
   */
  datatype Line = Whole(record: Record) | Torn(atOnce: bool)

  function ZeroHash(): Text {
    HexLower(Zeros(32))
  }

  /** The bytes that are hashed. */
  function Preimage(job: Digest, sequence: nat, previous: Digest, kind: Text, payload: seq<Byte>): seq<Byte> {
    HASH_DOMAIN + job + ToLE(sequence, 8) + previous + ToLE(|kind|, 4) + kind + ToLE(|payload|, 8) + payload
  }

  lemma PreimageShape(job: Digest, sequence: nat, previous: Digest, kind: Text, payload: seq<Byte>)
    ensures Preimage(job, sequence, previous, kind, payload) ==
            HASH_DOMAIN +
              (job + (ToLE(sequence, 8) + (previous + (ToLE(|kind|, 4) + (kind + (ToLE(|payload|, 8) + payload))))))
  {
    hide ToLE;
    var a, b, c, d, e, f, g, h :=
      HASH_DOMAIN, job, ToLE(sequence, 8), previous, ToLE(|kind|, 4), kind, ToLE(|payload|, 8), payload;
    Associate(a + b + c + d + e + f, g, h);
    Associate(a + b + c + d + e, f, g + h);
    Associate(a + b + c + d, e, f + (g + h));
    Associate(a + b + c, d, e + (f + (g + h)));
    Associate(a + b, c, d + (e + (f + (g + h))));
    Associate(a, b, c + (d + (e + (f + (g + h)))));
  }

  /** Equal preimages come from equal fields: every length is written before what it measures. */
  lemma PreimageInjective(job: Digest, sequence: nat, previous: Digest, kind: Text, payload: seq<Byte>,
                          job': Digest, sequence': nat, previous': Digest, kind': Text, payload': seq<Byte>)
    requires sequence < U64_LIMIT && sequence' < U64_LIMIT && |kind| < U32_LIMIT && |kind'| < U32_LIMIT
    requires Preimage(job, sequence, previous, kind, payload) == Preimage(job', sequence', previous', kind', payload')
    ensures job == job' && sequence == sequence' && previous == previous' && kind == kind' && payload == payload'
  {
    Pow256Values();
    PreimageShape(job, sequence, previous, kind, payload);
    PreimageShape(job', sequence', previous', kind', payload');
    hide ToLE, Preimage;
    var (t6, t6') := (ToLE(|payload|, 8) + payload, ToLE(|payload'|, 8) + payload');
    var (t5, t5') := (kind + t6, kind' + t6');
    var (t4, t4') := (ToLE(|kind|, 4) + t5, ToLE(|kind'|, 4) + t5');
    var (t3, t3') := (previous + t4, previous' + t4');
    var (t2, t2') := (ToLE(sequence, 8) + t3, ToLE(sequence', 8) + t3');
    SplitEqual(HASH_DOMAIN, job + t2, HASH_DOMAIN, job' + t2');
    SplitEqual(job, t2, job', t2');
    SplitEqual(ToLE(sequence, 8), t3, ToLE(sequence', 8), t3');
    SameInteger(sequence, sequence', 8);
    SplitEqual(previous, t4, previous', t4');
    SplitEqual(ToLE(|kind|, 4), t5, ToLE(|kind'|, 4), t5');
    SameInteger(|kind|, |kind'|, 4);
    SplitEqual(kind, t6, kind', t6');
    SplitEqual(ToLE(|payload|, 8), payload, ToLE(|payload'|, 8), payload');
  }

  datatype HashError = BadPrevious | KindTooLong

  /** `record_hash`. */
  function RecordHash(sha: seq<Byte> -> Digest, job: Digest, sequence: nat, previousHash: Text, kind: Text,
                      payload: seq<Byte>): Result<Text, HashError>
  {
    var previous := DecodeHash(previousHash);
    if previous.None? then Err(BadPrevious)
    else if |kind| >= U32_LIMIT then Err(KindTooLong)
    else Ok(HexLower(sha(Preimage(job, sequence, previous.value, kind, payload))))
  }

  // ---------- Audit ----------

  /** What the JSON encoding of a record measures; the encoding itself is not modelled. */
  datatype Setting = Setting(sha: seq<Byte> -> Digest, encodedLen: Record -> nat)

  function HeadOf(records: seq<Record>): Text {
    if records == [] then ZeroHash() else records[|records| - 1].recordHash
  }

  function JobOf(record: Record): Option<Digest> {
    DecodeHash(record.jobIdSha256)
  }

  /** Record `i` continues the chain of the records before it. */
  predicate Continues(setting: Setting, records: seq<Record>, i: nat)
    requires i < |records|
  {
    var r := records[i];
    && setting.encodedLen(r) <= MAX_JOURNAL_RECORD_BYTES
    && r.version == JOURNAL_VERSION && r.sequence == i && r.previousHash == HeadOf(records[..i])
    && |r.payload| == r.payloadLength <= MAX_JOURNAL_PAYLOAD_BYTES
    && JobOf(r).Some? && JobOf(r) == JobOf(records[0])
    && RecordHash(setting.sha, JobOf(r).value, i, r.previousHash, r.kind, r.payload) == Ok(r.recordHash)
  }

  ghost predicate Audited(setting: Setting, records: seq<Record>) {
    forall i :: 0 <= i < |records| ==> Continues(setting, records, i)
  }

  ghost predicate AllWhole(lines: seq<Line>) {
    forall i :: 0 <= i < |lines| ==> lines[i].Whole?
  }

  function RecordsOf(lines: seq<Line>): (records: seq<Record>)
    requires forall i :: 0 <= i < |lines| ==> lines[i].Whole?
    ensures |records| == |lines| && forall i :: 0 <= i < |records| ==> records[i] == lines[i].record
  {
    seq(|lines|, i requires 0 <= i < |lines| => lines[i].record)
  }

  lemma ContinuesPrefix(setting: Setting, records: seq<Record>, longer: seq<Record>, i: nat)
    requires i < |records| && records <= longer
    ensures Continues(setting, records, i) <==> Continues(setting, longer, i)
  {
    assert records[..i] == longer[..i];
  }

  /** `Panicked` stands for an audit that ends in a panic and returns nothing. */
  datatype AuditError = RecordLimit | NotCanonical | TooLarge | BadChain | BadPayload | BadJob | BadHash | Panicked

  /** What each refusal says of the record that follows `records`. */
  predicate Faulty(setting: Setting, records: seq<Record>, record: Record, error: AuditError) {
    match error
    case TooLarge => setting.encodedLen(record) > MAX_JOURNAL_RECORD_BYTES
    case BadChain =>
      record.version != JOURNAL_VERSION || record.sequence != |records| || record.previousHash != HeadOf(records)
    case BadPayload => |record.payload| > MAX_JOURNAL_PAYLOAD_BYTES || |record.payload| != record.payloadLength
    case BadJob => JobOf(record).None? || (records != [] && JobOf(record) != JobOf(records[0]))
    case BadHash =>
      JobOf(record).Some? &&
      RecordHash(setting.sha, JobOf(record).value, record.sequence, record.previousHash, record.kind, record.payload)
        != Ok(record.recordHash)
    case Panicked => true
    case _ => false
  }

  /** Why the audit stops at line `k`, the lines before it being in order. */
  ghost predicate RefusedAt(setting: Setting, lines: seq<Line>, maximum: nat, k: nat, error: AuditError) {
    && k < |lines| && AllWhole(lines[..k]) && Audited(setting, RecordsOf(lines[..k]))
    && if k >= maximum then error == RecordLimit
       else if lines[k].Torn? then error == NotCanonical
       else Faulty(setting, RecordsOf(lines[..k]), lines[k].record, error)
  }

  lemma StopsHere(setting: Setting, lines: seq<Line>, maximum: nat, records: seq<Record>, k: nat, error: AuditError)
    requires k == |records| < |lines| && forall j :: 0 <= j < k ==> lines[j] == Whole(records[j])
    requires Audited(setting, records)
    requires if k >= maximum then error == RecordLimit
             else if lines[k].Torn? then error == NotCanonical
             else Faulty(setting, records, lines[k].record, error)
    ensures RefusedAt(setting, lines, maximum, k, error)
  {
    hide Continues, Faulty;
    assert RecordsOf(lines[..k]) == records;
  }

  /** The checks on one record: passed exactly when it continues the records before it. */
  method CheckRecord(setting: Setting, ghost records: seq<Record>, record: Record, sequence: nat,
                     expectedPrevious: Text, expectedJob: Option<Digest>)
    returns (error: Option<AuditError>)
    requires sequence == |records| && expectedPrevious == HeadOf(records)
    requires expectedJob == if records == [] then None else JobOf(records[0])
    requires records != [] ==> expectedJob.Some?
    ensures error.None? <==> Continues(setting, records + [record], sequence)
    ensures error.Some? ==> Faulty(setting, records, record, error.value)
    ensures error == Some(Panicked) <==> PanicsNext(setting, records, record)
  {
    assert (records + [record])[..sequence] == records;
    hide RecordHash, DecodeHash, HeadOf, DecodePanics;
    DecodedNeverPanics(record.jobIdSha256);
    if setting.encodedLen(record) > MAX_JOURNAL_RECORD_BYTES {
      return Some(TooLarge);
    }
    if record.version != JOURNAL_VERSION || record.sequence != sequence || record.previousHash != expectedPrevious {
      return Some(BadChain);
    }
    if |record.payload| > MAX_JOURNAL_PAYLOAD_BYTES || |record.payload| != record.payloadLength {
      return Some(BadPayload);
    }
    var job, panicked := TryDecodeHash(record.jobIdSha256);
    if panicked {
      return Some(Panicked);
    }
    if job.None? || (expectedJob.Some? && expectedJob != job) {
      return Some(BadJob);
    }
    var expected :=
      RecordHash(setting.sha, job.value, record.sequence, record.previousHash, record.kind, record.payload);
    if expected != Ok(record.recordHash) {
      return Some(BadHash);
    }
    return None;
  }

  /** After these records, this one gets as far as the job text, and that one makes the decoder panic. */
  ghost predicate PanicsNext(setting: Setting, records: seq<Record>, record: Record) {
    && setting.encodedLen(record) <= MAX_JOURNAL_RECORD_BYTES
    && record.version == JOURNAL_VERSION && record.sequence == |records| && record.previousHash == HeadOf(records)
    && |record.payload| == record.payloadLength <= MAX_JOURNAL_PAYLOAD_BYTES
    && DecodePanics(record.jobIdSha256)
  }

  /** Line `k` is reached, and makes the audit panic. */
  ghost predicate PanicsAt(setting: Setting, lines: seq<Line>, maximum: nat, k: nat) {
    && k < |lines| && k < maximum && AllWhole(lines[..k + 1])
    && var records := RecordsOf(lines[..k + 1])[..k];
      Audited(setting, records) && PanicsNext(setting, records, lines[..k + 1][k].record)
  }

  ghost predicate AuditPanics(setting: Setting, lines: seq<Line>, maximum: nat) {
    Torn(true) !in lines && exists k: nat :: PanicsAt(setting, lines, maximum, k)
  }

  /** An audit that stops at line `i` can only have panicked there. */
  lemma PanicsOnlyAt(setting: Setting, lines: seq<Line>, maximum: nat, records: seq<Record>, i: nat, k: nat)
    requires i == |records| < |lines| && (forall j :: 0 <= j < i ==> lines[j] == Whole(records[j]))
    requires Audited(setting, records)
    requires i >= maximum || lines[i].Torn? || !Continues(setting, records + [lines[i].record], i)
    requires PanicsAt(setting, lines, maximum, k)
    ensures k == i && i < maximum && lines[i].Whole? && PanicsNext(setting, records, lines[i].record)
  {
    hide Continues, PanicsNext;
    var whole := RecordsOf(lines[..k + 1]);
    if k < i {
      assert whole[..k] == records[..k] && whole[k] == records[k];
      ContinuedNeverPanics(setting, records, k);
      assert false;
    } else if k > i {
      assert lines[..k + 1][i].Whole?;
      assert whole[..i] == records && whole[i] == lines[i].record;
      assert whole[..i + 1] == records + [lines[i].record];
      assert Continues(setting, whole[..k], i);
      assert whole[..i + 1] <= whole[..k];
      ContinuesPrefix(setting, whole[..i + 1], whole[..k], i);
      assert false;
    } else {
      assert whole[..i] == records;
    }
  }

  lemma ContinuedNeverPanics(setting: Setting, records: seq<Record>, k: nat)
    requires k < |records| && Continues(setting, records, k)
    ensures !PanicsNext(setting, records[..k], records[k])
  {
    hide RecordHash, HeadOf, DecodeHash, DecodePanics;
    DecodedNeverPanics(records[k].jobIdSha256);
  }

  lemma AcceptedNeverPanics(setting: Setting, lines: seq<Line>, maximum: nat, records: seq<Record>, k: nat)
    requires |records| == |lines| && (forall j :: 0 <= j < |lines| ==> lines[j] == Whole(records[j]))
    requires Audited(setting, records)
    ensures !PanicsAt(setting, lines, maximum, k)
  {
    hide Continues, PanicsNext;
    if k < |lines| {
      ContinuedNeverPanics(setting, records, k);
      assert AllWhole(lines[..k + 1]) ==> RecordsOf(lines[..k + 1])[..k] == records[..k];
    }
  }

  lemma PanicDecided(setting: Setting, lines: seq<Line>, maximum: nat, records: seq<Record>, i: nat)
    requires i == |records| < |lines| && (forall j :: 0 <= j < i ==> lines[j] == Whole(records[j]))
    requires Audited(setting, records) && Torn(true) !in lines
    requires i >= maximum || lines[i].Torn? || !Continues(setting, records + [lines[i].record], i)
    ensures AuditPanics(setting, lines, maximum) <==>
      i < maximum && lines[i].Whole? && PanicsNext(setting, records, lines[i].record)
  {
    hide Continues, PanicsNext;
    if k: nat :| PanicsAt(setting, lines, maximum, k) {
      hide PanicsAt;
      PanicsOnlyAt(setting, lines, maximum, records, i, k);
    } else if i < maximum && lines[i].Whole? {
      assert RecordsOf(lines[..i + 1])[..i] == records;
      assert PanicsNext(setting, records, lines[i].record) ==> PanicsAt(setting, lines, maximum, i);
    }
  }

  /**
   * `audit_journal`: accepts exactly the files whose lines are whole records that continue each other, and panics
   * exactly when the job text of the first record it cannot accept makes the decoder panic.
   */
  method AuditJournal(setting: Setting, lines: seq<Line>, maximum: nat) returns (r: Result<seq<Record>, AuditError>)
    ensures r.Ok? <==> |lines| <= maximum && AllWhole(lines) && Audited(setting, RecordsOf(lines))
    ensures r.Ok? ==> r.value == RecordsOf(lines)
    ensures r == Err(Panicked) <==> AuditPanics(setting, lines, maximum)
    ensures r.Err? ==>
      (Torn(true) in lines && r.error == NotCanonical) || exists k :: RefusedAt(setting, lines, maximum, k, r.error)
  {
    hide Continues, HeadOf, JobOf, AuditPanics, PanicsNext, Faulty, RefusedAt;
    if Torn(true) in lines {
      NoPanicAtOnce(setting, lines, maximum);
      return Err(NotCanonical);
    }
    var records: seq<Record> := [];
    var expectedPrevious := ZeroHash();
    var expectedJob: Option<Digest> := None;
    NoHead();
    for i := 0 to |lines|
      invariant i <= maximum && |records| == i && forall k :: 0 <= k < i ==> lines[k] == Whole(records[k])
      invariant Audited(setting, records) && expectedPrevious == HeadOf(records)
      invariant expectedJob == if records == [] then None else JobOf(records[0])
    {
      if i >= maximum {
        PanicDecided(setting, lines, maximum, records, i);
        StopsHere(setting, lines, maximum, records, i, RecordLimit);
        return Err(RecordLimit);
      }
      if lines[i].Torn? {
        PanicDecided(setting, lines, maximum, records, i);
        StopsHere(setting, lines, maximum, records, i, NotCanonical);
        return Err(NotCanonical);
      }
      var record := lines[i].record;
      FirstJob(setting, records);
      var error := CheckRecord(setting, records, record, i, expectedPrevious, expectedJob);
      if error.Some? {
        BrokenAt(setting, lines, records, record, i);
        PanicDecided(setting, lines, maximum, records, i);
        StopsHere(setting, lines, maximum, records, i, error.value);
        return Err(error.value);
      }
      StillAudited(setting, records, record);
      expectedJob, expectedPrevious, records := DecodeHash(record.jobIdSha256), record.recordHash, records + [record];
      SnocHead(setting, records, i);
    }
    assert AllWhole(lines) && records == RecordsOf(lines);
    NoPanicInAccepted(setting, lines, maximum, records);
    return Ok(records);
  }

  lemma NoPanicAtOnce(setting: Setting, lines: seq<Line>, maximum: nat)
    requires Torn(true) in lines
    ensures !AuditPanics(setting, lines, maximum) && !AllWhole(lines)
  {
  }

  lemma NoPanicInAccepted(setting: Setting, lines: seq<Line>, maximum: nat, records: seq<Record>)
    requires |records| == |lines| && (forall j :: 0 <= j < |lines| ==> lines[j] == Whole(records[j]))
    requires Audited(setting, records)
    ensures !AuditPanics(setting, lines, maximum)
  {
    forall k: nat
      ensures !PanicsAt(setting, lines, maximum, k)
    {
      AcceptedNeverPanics(setting, lines, maximum, records, k);
    }
  }

  lemma NoHead()
    ensures HeadOf([]) == ZeroHash()
  {
  }

  lemma FirstJob(setting: Setting, records: seq<Record>)
    requires Audited(setting, records)
    ensures records != [] ==> JobOf(records[0]).Some?
  {
    hide RecordHash;
    assert records != [] ==> Continues(setting, records, 0);
  }

  lemma SnocHead(setting: Setting, records: seq<Record>, i: nat)
    requires |records| == i + 1 && Continues(setting, records, i)
    ensures HeadOf(records) == records[i].recordHash && DecodeHash(records[i].jobIdSha256) == JobOf(records[0])
  {
    hide RecordHash;
  }

  lemma BrokenAt(setting: Setting, lines: seq<Line>, records: seq<Record>, record: Record, i: nat)
    requires i == |records| < |lines| && lines[i] == Whole(record) && forall k :: 0 <= k < i ==>
      lines[k] == Whole(records[k])
    requires !Continues(setting, records + [record], i)
    ensures AllWhole(lines) ==> !Audited(setting, RecordsOf(lines))
  {
    hide Continues;
    if AllWhole(lines) {
      ContinuesPrefix(setting, records + [record], RecordsOf(lines), i);
    }
  }

  lemma StillAudited(setting: Setting, records: seq<Record>, record: Record)
    requires Audited(setting, records)
    ensures Continues(setting, records + [record], |records|) ==> Audited(setting, records + [record])
  {
    hide Continues;
    forall i | 0 <= i < |records|
      ensures Continues(setting, records + [record], i)
    {
      ContinuesPrefix(setting, records, records + [record], i);
    }
  }

  // ---------- Commitment ----------

  ghost function PreimageOf(r: Record): seq<Byte>
    requires JobOf(r).Some? && DecodeHash(r.previousHash).Some?
  {
    Preimage(JobOf(r).value, r.sequence, DecodeHash(r.previousHash).value, r.kind, r.payload)
  }

  /** Two records of the journals have different preimages with the same digest. */
  ghost predicate Collide(sha: seq<Byte> -> Digest, r: Record, s: Record) {
    && JobOf(r).Some? && DecodeHash(r.previousHash).Some? && JobOf(s).Some? && DecodeHash(s.previousHash).Some?
    && PreimageOf(r) != PreimageOf(s) && sha(PreimageOf(r)) == sha(PreimageOf(s))
  }

  ghost predicate CollisionIn(sha: seq<Byte> -> Digest, a: seq<Record>, b: seq<Record>) {
    exists r, s :: r in a && s in b && Collide(sha, r, s)
  }

  /** The two journals say the same: job digest, kind and payload, record by record. */
  ghost predicate SameContent(a: seq<Record>, b: seq<Record>) {
    |a| == |b| && forall i :: 0 <= i < |a| ==>
      JobOf(a[i]) == JobOf(b[i]) && a[i].kind == b[i].kind && a[i].payload == b[i].payload
  }

  /** An audited record's hash is the text of the digest of its preimage. */
  lemma AuditedHash(setting: Setting, records: seq<Record>, i: nat)
    requires i < |records| && Audited(setting, records) && |records| < U64_LIMIT
    ensures var r := records[i];
      && JobOf(r).Some? && DecodeHash(r.previousHash).Some? && r.sequence == i && |r.kind| < U32_LIMIT
      && r.recordHash == HexLower(setting.sha(PreimageOf(r)))
  {
    hide DecodeHash;
    assert Continues(setting, records, i);
  }

  /** Heads are always written by this code, so equal digests mean equal texts. */
  lemma HeadIsHex(setting: Setting, records: seq<Record>) returns (d: Digest)
    requires Audited(setting, records) && |records| < U64_LIMIT
    ensures HeadOf(records) == HexLower(d) && DecodeHash(HeadOf(records)) == Some(d)
  {
    hide HexLower, DecodePairs, Continues, Audited, PreimageOf, JobOf;
    if records == [] {
      d := Zeros(32);
    } else {
      AuditedHash(setting, records, |records| - 1);
      d := setting.sha(PreimageOf(records[|records| - 1]));
    }
    HexRoundTrip(d);
  }

  lemma PrefixAudited(setting: Setting, records: seq<Record>)
    requires records != [] && Audited(setting, records)
    ensures Audited(setting, records[..|records| - 1])
    ensures records[|records| - 1].previousHash == HeadOf(records[..|records| - 1])
  {
    hide RecordHash, DecodeHash;
    var rest := records[..|records| - 1];
    forall i | 0 <= i < |rest|
      ensures Continues(setting, rest, i)
    {
      ContinuesPrefix(setting, rest, records, i);
    }
    assert Continues(setting, records, |records| - 1);
  }

  /** Equal heads of nonempty journals: the last records agree in everything hashed, or collide. */
  lemma LastAgrees(setting: Setting, a: seq<Record>, b: seq<Record>)
    requires Audited(setting, a) && Audited(setting, b) && |a| < U64_LIMIT && |b| < U64_LIMIT && a != [] && b != []
    requires HeadOf(a) == HeadOf(b)
    ensures var r, s := a[|a| - 1], b[|b| - 1];
      || Collide(setting.sha, r, s)
      || (|a| == |b| && JobOf(r) == JobOf(s) && r.kind == s.kind && r.payload == s.payload &&
            HeadOf(a[..|a| - 1]) == HeadOf(b[..|b| - 1]))
  {
    hide DecodeHash, HexLower, Continues, Audited, JobOf, DecodePairs, PreimageOf;
    var r, s := a[|a| - 1], b[|b| - 1];
    AuditedHash(setting, a, |a| - 1);
    AuditedHash(setting, b, |b| - 1);
    PrefixAudited(setting, a);
    PrefixAudited(setting, b);
    var d := HeadIsHex(setting, a[..|a| - 1]);
    var e := HeadIsHex(setting, b[..|b| - 1]);
    HexInjective(setting.sha(PreimageOf(r)), setting.sha(PreimageOf(s)));
    if PreimageOf(r) == PreimageOf(s) {
      FieldsAgree(r, s);
    }
  }

  lemma FieldsAgree(r: Record, s: Record)
    requires JobOf(r).Some? && DecodeHash(r.previousHash).Some? && JobOf(s).Some? && DecodeHash(s.previousHash).Some?
    requires r.sequence < U64_LIMIT && s.sequence < U64_LIMIT && |r.kind| < U32_LIMIT && |s.kind| < U32_LIMIT
    requires PreimageOf(r) == PreimageOf(s)
    ensures JobOf(r) == JobOf(s) && r.sequence == s.sequence && DecodeHash(r.previousHash) == DecodeHash(s.previousHash)
    ensures r.kind == s.kind && r.payload == s.payload
  {
    hide DecodeHash, JobOf, Preimage;
    PreimageInjective(JobOf(r).value, r.sequence, DecodeHash(r.previousHash).value, r.kind, r.payload,
                      JobOf(s).value, s.sequence, DecodeHash(s.previousHash).value, s.kind, s.payload);
  }

  /**
   * The final hash commits to the whole journal: two audited journals with the same final hash, both empty or both
   * not, have the same length and content, or hold two records whose different preimages collide.
   */
  lemma {:induction false} Commitment(setting: Setting, a: seq<Record>, b: seq<Record>)
    requires Audited(setting, a) && Audited(setting, b) && |a| < U64_LIMIT && |b| < U64_LIMIT
    requires HeadOf(a) == HeadOf(b) && (a == [] <==> b == [])
    ensures SameContent(a, b) || CollisionIn(setting.sha, a, b)
    decreases |a|
  {
    hide Collide, JobOf, Audited;
    if a != [] {
      var rest, rest', r, s := a[..|a| - 1], b[..|b| - 1], a[|a| - 1], b[|b| - 1];
      assert a == rest + [r] && b == rest' + [s];
      LastAgrees(setting, a, b);
      if Collide(setting.sha, r, s) {
        assert r in a && s in b;
      } else {
        PrefixAudited(setting, a);
        PrefixAudited(setting, b);
        Commitment(setting, rest, rest');
        if CollisionIn(setting.sha, rest, rest') {
          var x, y :| x in rest && y in rest' && Collide(setting.sha, x, y);
          assert x in a && y in b;
        }
      }
    }
  }

  /** The journals also spell their job digests alike. */
  ghost predicate SameSpelling(a: seq<Record>, b: seq<Record>) {
    |a| == |b| && forall i :: 0 <= i < |a| ==> a[i].jobIdSha256 == b[i].jobIdSha256
  }

  ghost predicate AllLower(records: seq<Record>) {
    forall i :: 0 <= i < |records| ==> IsLowerText(records[i].jobIdSha256)
  }

  /**
   * The final hash does not cover the spelling of the job digest: against a journal in the written, lower-case
   * spelling, another one with the same final hash agrees in the job texts exactly when its own are lower-case too,
   * unless two records collide.
   */
  lemma SpellingCommitment(setting: Setting, a: seq<Record>, b: seq<Record>)
    requires Audited(setting, a) && Audited(setting, b) && |a| < U64_LIMIT && |b| < U64_LIMIT
    requires HeadOf(a) == HeadOf(b) && (a == [] <==> b == []) && AllLower(a)
    ensures CollisionIn(setting.sha, a, b) || (SameContent(a, b) && (SameSpelling(a, b) <==> AllLower(b)))
  {
    hide Continues, Audited, CollisionIn, IsLowerText, HexLower, DecodePairs, PreimageOf;
    Commitment(setting, a, b);
    if SameContent(a, b) {
      forall i | 0 <= i < |a|
        ensures a[i].jobIdSha256 == b[i].jobIdSha256 <==> IsLowerText(b[i].jobIdSha256)
      {
        AuditedHash(setting, a, i);
        AuditedHash(setting, b, i);
        WrittenIffLower(a[i].jobIdSha256);
        WrittenIffLower(b[i].jobIdSha256);
      }
    }
  }

  /** A one-record journal whose job digest is spelled `job`. */
  function OneRecord(setting: Setting, job: Text): seq<Record>
    requires DecodeHash(job).Some?
  {
    HexRoundTrip(Zeros(32));
    var hash := RecordHash(setting.sha, DecodeHash(job).value, 0, ZeroHash(), [], []).value;
    [Record(JOURNAL_VERSION, job, 0, ZeroHash(), [], 0, [], hash)]
  }

  lemma OneRecordAudited(setting: Setting, job: Text)
    requires DecodeHash(job).Some? && setting.encodedLen(OneRecord(setting, job)[0]) <= MAX_JOURNAL_RECORD_BYTES
    ensures Audited(setting, OneRecord(setting, job))
  {
    HexRoundTrip(Zeros(32));
    var records := OneRecord(setting, job);
    assert records[..0] == [];
    assert Continues(setting, records, 0);
  }

  /** Two spellings of one digest, whichever they are, make two audited journals with one head and no collision. */
  lemma RespeltJournals(setting: Setting, s: Text, t: Text)
    requires DecodeHash(s).Some? && DecodeHash(s) == DecodeHash(t)
    requires setting.encodedLen(OneRecord(setting, s)[0]) <= MAX_JOURNAL_RECORD_BYTES
    requires setting.encodedLen(OneRecord(setting, t)[0]) <= MAX_JOURNAL_RECORD_BYTES
    ensures var a, b := OneRecord(setting, s), OneRecord(setting, t);
      && Audited(setting, a) && Audited(setting, b)
      && HeadOf(a) == HeadOf(b) && !CollisionIn(setting.sha, a, b)
      && a[0].jobIdSha256 == s && b[0].jobIdSha256 == t
  {
    OneRecordAudited(setting, s);
    OneRecordAudited(setting, t);
  }

  /** A record with no kind and no payload fits on a line, as it does in any encoding of a few hundred bytes. */
  ghost predicate EmptyRecordsFit(setting: Setting) {
    forall job: Text :: DecodeHash(job).Some? ==>
      setting.encodedLen(OneRecord(setting, job)[0]) <= MAX_JOURNAL_RECORD_BYTES
  }

  /** The failing input: two audited journals with one head and no collision that spell the job digest differently. */
  lemma SpellingNotCommitted(setting: Setting) returns (a: seq<Record>, b: seq<Record>)
    requires EmptyRecordsFit(setting)
    ensures Audited(setting, a) && Audited(setting, b) && |a| == |b| == 1
    ensures HeadOf(a) == HeadOf(b) && !CollisionIn(setting.sha, a, b)
    ensures a[0].jobIdSha256 == Repeat(0x61, 0x62, 32) && b[0].jobIdSha256 == Repeat(0x41, 0x42, 32)
    ensures a[0].jobIdSha256 != b[0].jobIdSha256
  {
    hide DecodeHash, Repeat;
    var small, capital := SpellingNotUnique(32);
    a, b := OneRecord(setting, small), OneRecord(setting, capital);
    RespeltJournals(setting, small, capital);
  }

  /**
   * Without that condition it holds only up to a digest of zeros: an empty journal has the head of a journal whose
   * last digest is zero.
   */
  lemma EmptyException(setting: Setting, b: seq<Record>)
    requires Audited(setting, b) && b != [] && |b| < U64_LIMIT
    ensures HeadOf([]) == HeadOf(b) <==>
        JobOf(b[|b| - 1]).Some? && DecodeHash(b[|b| - 1].previousHash).Some? &&
          setting.sha(PreimageOf(b[|b| - 1])) == Zeros(32)
    ensures !SameContent([], b) && !CollisionIn(setting.sha, [], b)
  {
    AuditedHash(setting, b, |b| - 1);
    if HeadOf([]) == HeadOf(b) {
      HexInjective(setting.sha(PreimageOf(b[|b| - 1])), Zeros(32));
    }
  }

  /** Such journals exist for some hash functions. */
  lemma EmptyExceptionExists()
    ensures exists setting, b :: Audited(setting, b) && b != [] && |b| < U64_LIMIT && HeadOf([]) == HeadOf(b)
  {
    var setting := Setting(_ => Zeros(32), _ => 0);
    var r := Record(JOURNAL_VERSION, ZeroHash(), 0, ZeroHash(), [], 0, [], ZeroHash());
    HexRoundTrip(Zeros(32));
    assert [r][..0] == [];
    assert Audited(setting, [r]);
  }

  // ---------- Appending ----------

  /** Where an append can fail; a failed write may leave a torn line, the whole line, or nothing. */
  datatype Fault = NoFault | WriteFault(left: Option<Line>) | FlushFault | SyncFault

  datatype AppendError =
    | Poisoned
    | AppendRecordLimit
    | PayloadTooLarge
    | RecordTooLarge
    | HashFailed(cause: HashError)
    | SinkFailed

  /** An audited chain for the job, with its head. */
  ghost predicate ChainOf(setting: Setting, job: Digest, records: seq<Record>, head: Text) {
    && Audited(setting, records) && head == HeadOf(records)
    && forall i :: 0 <= i < |records| ==> records[i].jobIdSha256 == HexLower(job)
  }

  /** What this code writes names the job, in the spelling under which the final hash commits to the text as well. */
  lemma WrittenSpelling(setting: Setting, job: Digest, records: seq<Record>, head: Text)
    requires ChainOf(setting, job, records, head)
    ensures AllLower(records) && forall i :: 0 <= i < |records| ==> JobOf(records[i]) == Some(job)
  {
    HexRoundTrip(job);
    WrittenIffLower(HexLower(job));
  }

  lemma ChainStarts(setting: Setting, job: Digest)
    ensures ChainOf(setting, job, [], ZeroHash())
  {
  }

  lemma ChainGrows(setting: Setting, job: Digest, records: seq<Record>, record: Record)
    requires ChainOf(setting, job, records, record.previousHash)
    requires record.version == JOURNAL_VERSION && record.jobIdSha256 == HexLower(job) && record.sequence == |records|
    requires record.payloadLength == |record.payload| <= MAX_JOURNAL_PAYLOAD_BYTES
    requires setting.encodedLen(record) <= MAX_JOURNAL_RECORD_BYTES
    requires RecordHash(setting.sha, job, record.sequence, record.previousHash, record.kind, record.payload)
      == Ok(record.recordHash)
    ensures ChainOf(setting, job, records + [record], record.recordHash)
  {
    HexRoundTrip(job);
    hide RecordHash, HexLower, DecodePairs;
    assert (records + [record])[..|records|] == records;
    assert Continues(setting, records + [record], |records|);
    StillAudited(setting, records, record);
  }

  class JobJournal {
    const setting: Setting
    const job: Digest
    var lines: seq<Line>
    var nextSequence: nat
    var previousHash: Text
    var poisoned: bool

    /** The records counted so far form an audited chain, whatever a failed append left after them. */
    ghost predicate Valid()
      reads this
    {
      && nextSequence <= |lines| && nextSequence <= MAX_JOURNAL_RECORDS && AllWhole(lines[..nextSequence])
      && ChainOf(setting, job, Counted(), previousHash)
      && (if poisoned then |lines| <= nextSequence + 1 else |lines| == nextSequence)
    }

    ghost function Counted(): seq<Record>
      reads this`lines, this`nextSequence
      requires nextSequence <= |lines| && AllWhole(lines[..nextSequence])
    {
      RecordsOf(lines[..nextSequence])
    }

    constructor (setting: Setting, job: Digest)
      ensures Valid() && !poisoned && nextSequence == 0 && lines == [] && this.setting == setting && this.job == job
    {
      ChainStarts(setting, job);
      this.setting, this.job := setting, job;
      lines, nextSequence, previousHash, poisoned := [], 0, ZeroHash(), false;
    }

    /** Everything that is checked before the sink is touched. */
    method Prepare(kind: Text, payload: seq<Byte>) returns (r: Result<Record, AppendError>)
      requires Valid()
      ensures r.Ok? ==> !poisoned && nextSequence < MAX_JOURNAL_RECORDS
      ensures r.Ok? ==> r.value.kind == kind && r.value.payload == payload
      ensures r.Ok? ==> ChainOf(setting, job, Counted() + [r.value], r.value.recordHash)
      ensures r.Err? ==> !r.error.SinkFailed? && (r.error.Poisoned? <==> poisoned)
      ensures r == Err(AppendRecordLimit) ==> nextSequence >= MAX_JOURNAL_RECORDS
      ensures r == Err(PayloadTooLarge) ==> |payload| > MAX_JOURNAL_PAYLOAD_BYTES
      ensures r == Err(RecordTooLarge) ==> exists record: Record ::
        record.kind == kind && record.payload == payload && setting.encodedLen(record) > MAX_JOURNAL_RECORD_BYTES
    {
      hide ChainOf, RecordHash;
      if poisoned {
        return Err(Poisoned);
      }
      if nextSequence >= MAX_JOURNAL_RECORDS {
        return Err(AppendRecordLimit);
      }
      if |payload| > MAX_JOURNAL_PAYLOAD_BYTES {
        return Err(PayloadTooLarge);
      }
      var hash := RecordHash(setting.sha, job, nextSequence, previousHash, kind, payload);
      if hash.Err? {
        return Err(HashFailed(hash.error));
      }
      var record :=
        Record(JOURNAL_VERSION, HexLower(job), nextSequence, previousHash, kind, |payload|, payload, hash.value);
      if setting.encodedLen(record) > MAX_JOURNAL_RECORD_BYTES {
        return Err(RecordTooLarge);
      }
      ChainGrows(setting, job, Counted(), record);
      return Ok(record);
    }

    /**
     * `append`: one more audited record and a new head, or an error that counts nothing; after a sink error nothing
     * is ever added.
     */
    method Append(kind: Text, payload: seq<Byte>, fault: Fault) returns (r: Result<(), AppendError>)
      requires Valid()
      modifies this`lines, this`nextSequence, this`previousHash, this`poisoned
      ensures Valid() && old(lines) <= lines
      ensures r.Ok? ==> fault == NoFault && !poisoned && nextSequence == old(nextSequence) + 1
      ensures r.Ok? ==>
        exists added: Record :: added.kind == kind && added.payload == payload && Counted() == old(Counted()) + [added]
      ensures r.Err? ==>
        nextSequence == old(nextSequence) && previousHash == old(previousHash) && Counted() == old(Counted())
      ensures r.Err? ==> (poisoned <==> old(poisoned) || r.error.SinkFailed?)
      ensures r.Err? && !r.error.SinkFailed? ==> lines == old(lines)
      ensures old(poisoned) ==> r == Err(Poisoned)
    {
      hide ChainOf;
      var record :- Prepare(kind, payload);
      ghost var before := lines;
      match fault {
        case WriteFault(left) =>
          poisoned := true;
          lines := lines + if left.Some? then [left.value] else [];
          assert lines[..nextSequence] == before[..nextSequence];
          return Err(SinkFailed);
        case FlushFault =>
          poisoned := true;
          lines := lines + [Whole(record)];
          assert lines[..nextSequence] == before[..nextSequence];
          return Err(SinkFailed);
        case SyncFault =>
          poisoned := true;
          lines := lines + [Whole(record)];
          assert lines[..nextSequence] == before[..nextSequence];
          return Err(SinkFailed);
        case NoFault =>
      }
      lines := lines + [Whole(record)];
      nextSequence := nextSequence + 1;
      previousHash := record.recordHash;
      assert lines[..nextSequence] == before[..nextSequence - 1] + [Whole(record)];
      assert Counted() == old(Counted()) + [record];
      return Ok(());
    }
  }

  datatype AppendCall = AppendCall(kind: Text, payload: seq<Byte>, fault: Fault)

  /** Any run of appends, whatever fails: what was counted passes the audit and ends in the head the journal reports. */
  method RunAppends(setting: Setting, job: Digest, calls: seq<AppendCall>)
    returns (journal: JobJournal, audit: Result<seq<Record>, AuditError>)
    ensures fresh(journal) && journal.Valid()
    ensures audit.Ok? && |audit.value| == journal.nextSequence && HeadOf(audit.value) == journal.previousHash
    ensures journal.poisoned ==> |journal.lines| <= journal.nextSequence + 1
    ensures !journal.poisoned ==> audit.value == journal.Counted() && |journal.lines| == journal.nextSequence
  {
    journal := new JobJournal(setting, job);
    for i := 0 to |calls|
      invariant fresh(journal) && journal.Valid() && journal.setting == setting
    {
      var r := journal.Append(calls[i].kind, calls[i].payload, calls[i].fault);
    }
    audit := AuditJournal(setting, journal.lines[..journal.nextSequence], MAX_JOURNAL_RECORDS);
  }
}
