/** Update-sequence fixups of MFT records (crates/fs-ntfs/src/record.rs) and the builder that applies them. */
module MftRecord {
  import opened Common
  import opened Arithmetic

  const FILE_SIGNATURE: seq<Byte> := [0x46, 0x49, 0x4C, 0x45]

  datatype RecordError = NotAFileRecord | Corrupt | FixupMismatch

  datatype FileRecord = FileRecord(
    data: seq<Byte>, sequence: nat, hardLinkCount: nat, attrsOffset: nat, inUse: bool, isDirectory: bool,
    bytesUsed: nat, baseRecord: nat)

  /** An update sequence array: where it lies, how many entries it has, and how long the sectors it protects are. */
  datatype Usa = Usa(offset: nat, count: nat, sector: nat) {
    /** The two bytes at the end of protected sector `i`. */
    function End(i: nat): int {
      i * sector - 2
    }

    predicate Holds(p: int) {
      offset <= p < offset + 2 * count
    }
  }

  ghost predicate AtEnd(usa: Usa, i: nat, p: int) {
    1 <= i < usa.count && usa.End(i) <= p < usa.End(i) + 2
  }

  /** The array and all protected sectors lie inside the record. */
  ghost predicate Placed(usa: Usa, len: nat) {
    && usa.sector >= 2 && usa.count > 0 && usa.offset + 2 * usa.count <= len
    && forall i: nat :: 1 <= i < usa.count ==> 0 <= usa.End(i) && usa.End(i) + 2 <= len
  }

  /** Every protected sector still ends in the update sequence number: none was torn. */
  ghost predicate Intact(usa: Usa, raw: seq<Byte>)
    requires Placed(usa, |raw|)
  {
    IntactTo(usa, raw, usa.count)
  }

  ghost predicate IntactTo(usa: Usa, raw: seq<Byte>, k: nat)
    requires Placed(usa, |raw|)
  {
    forall i: nat :: 1 <= i < usa.count && i < k ==>
        raw[usa.End(i)] == raw[usa.offset] && raw[usa.End(i) + 1] == raw[usa.offset + 1]
  }

  /** `data` is `raw` with the saved bytes put back at the sector ends. */
  ghost predicate Restored(usa: Usa, raw: seq<Byte>, data: seq<Byte>)
    requires Placed(usa, |raw|)
  {
    && |data| == |raw|
    && (forall i: nat :: 1 <= i < usa.count ==>
          data[usa.End(i)] == raw[usa.offset + 2 * i] && data[usa.End(i) + 1] == raw[usa.offset + 2 * i + 1])
    && (forall p :: 0 <= p < |raw| && (forall i: nat :: !AtEnd(usa, i, p)) ==> data[p] == raw[p])
  }

  /** Two protected sector ends never overlap. */
  lemma EndsApart(usa: Usa, i: nat, j: nat)
    requires usa.sector >= 2 && i < j
    ensures usa.End(i) + 2 <= usa.End(j)
  {
    ProductOrder(i, j, usa.sector);
  }

  lemma CountPlaces(usa: Usa, len: nat)
    requires usa.sector >= 2 && 0 < usa.count <= len / usa.sector + 1 && usa.offset + 2 * usa.count <= len
    ensures Placed(usa, len)
  {
    forall i: nat | 1 <= i < usa.count
      ensures 0 <= usa.End(i) && usa.End(i) + 2 <= len
    {
      BlockEnd(i, usa.sector, len);
    }
  }

  lemma BlockEnd(i: nat, size: nat, len: nat)
    requires size > 0 && 1 <= i <= len / size
    ensures size <= i * size <= len
  {
    ProductOrder(1, i, size);
    ProductOrder(i, len / size, size);
    assert len == (len / size) * size + len % size;
  }

  /** The part of `Restored` done before sector `k`. */
  ghost predicate RestoredTo(usa: Usa, raw: seq<Byte>, data: seq<Byte>, k: nat)
    requires Placed(usa, |raw|)
  {
    && |data| == |raw|
    && (forall i: nat :: 1 <= i < usa.count ==>
          data[usa.End(i)] == (if i < k then raw[usa.offset + 2 * i] else raw[usa.End(i)]) &&
          data[usa.End(i) + 1] == (if i < k then raw[usa.offset + 2 * i + 1] else raw[usa.End(i) + 1]))
    && (forall p :: 0 <= p < |raw| && (forall i: nat :: !AtEnd(usa, i, p)) ==> data[p] == raw[p])
  }

  lemma RestoreOne(usa: Usa, raw: seq<Byte>, data: seq<Byte>, after: seq<Byte>, k: nat)
    requires Placed(usa, |raw|) && RestoredTo(usa, raw, data, k) && 1 <= k < usa.count && |after| == |data|
    requires after[usa.End(k)] == raw[usa.offset + 2 * k] && after[usa.End(k) + 1] == raw[usa.offset + 2 * k + 1]
    requires forall p :: 0 <= p < |data| && !AtEnd(usa, k, p) ==> after[p] == data[p]
    ensures RestoredTo(usa, raw, after, k + 1)
  {
    forall i: nat | 1 <= i < usa.count && i != k
      ensures after[usa.End(i)] == data[usa.End(i)] && after[usa.End(i) + 1] == data[usa.End(i) + 1]
    {
      if i < k {
        EndsApart(usa, i, k);
      } else {
        EndsApart(usa, k, i);
      }
      assert !AtEnd(usa, k, usa.End(i)) && !AtEnd(usa, k, usa.End(i) + 1);
    }
  }

  /** The fixup loop of `parse_file_record`, in place on the copy. */
  method ApplyFixups(raw: seq<Byte>, usa: Usa) returns (r: Result<seq<Byte>, RecordError>)
    requires Placed(usa, |raw|)
    ensures r.Ok? <==> Intact(usa, raw)
    ensures r.Ok? ==> Restored(usa, raw, r.value)
    ensures r.Err? ==> r.error == FixupMismatch
  {
    hide RestoredTo, Restored, IntactTo, Usa.End;
    var data := new Byte[|raw|](p requires 0 <= p < |raw| => raw[p]);
    assert data[..] == raw;
    Untouched(usa, raw);
    var k := 1;
    while k < usa.count
      invariant 1 <= k <= usa.count && RestoredTo(usa, raw, data[..], k) && IntactTo(usa, raw, k)
    {
      ghost var before := data[..];
      NotYet(usa, raw, before, k);
      var end := usa.End(k);
      var torn := data[end] != raw[usa.offset] || data[end + 1] != raw[usa.offset + 1];
      IntactStep(usa, raw, k);
      if torn {
        return Err(FixupMismatch);
      }
      data[end] := raw[usa.offset + 2 * k];
      data[end + 1] := raw[usa.offset + 2 * k + 1];
      RestoreOne(usa, raw, before, data[..], k);
      k := k + 1;
    }
    AllRestored(usa, raw, data[..], k);
    return Ok(data[..]);
  }

  lemma IntactStep(usa: Usa, raw: seq<Byte>, k: nat)
    requires Placed(usa, |raw|) && 1 <= k < usa.count && IntactTo(usa, raw, k)
    ensures var torn := raw[usa.End(k)] != raw[usa.offset] || raw[usa.End(k) + 1] != raw[usa.offset + 1];
      && (torn ==> !IntactTo(usa, raw, usa.count))
      && (!torn ==> IntactTo(usa, raw, k + 1))
  {
  }

  lemma Untouched(usa: Usa, raw: seq<Byte>)
    requires Placed(usa, |raw|)
    ensures RestoredTo(usa, raw, raw, 1) && IntactTo(usa, raw, 1)
  {
  }

  lemma NotYet(usa: Usa, raw: seq<Byte>, data: seq<Byte>, k: nat)
    requires Placed(usa, |raw|) && RestoredTo(usa, raw, data, k) && 1 <= k < usa.count
    ensures data[usa.End(k)] == raw[usa.End(k)] && data[usa.End(k) + 1] == raw[usa.End(k) + 1]
  {
  }

  lemma AllRestored(usa: Usa, raw: seq<Byte>, data: seq<Byte>, k: nat)
    requires Placed(usa, |raw|) && RestoredTo(usa, raw, data, k) && k >= usa.count
    ensures Restored(usa, raw, data)
  {
  }

  // ---------- The record around the fixups ----------

  function UsaOf(raw: seq<Byte>, sector: nat): Usa
    requires |raw| >= 42
  {
    Usa(FromLE(raw[4..6]), FromLE(raw[6..8]), sector)
  }

  /** The array the header names is plausible for a record of this length. */
  predicate Plausible(usa: Usa, len: nat)
    requires usa.sector > 0
  {
    0 < usa.count <= len / usa.sector + 1 && usa.offset + 2 * usa.count <= len
  }

  /** What the header says once the fixups are applied. */
  function HeaderOf(data: seq<Byte>): FileRecord
    requires |data| >= 42
  {
    var flags := FromLE(data[22..24]);
    FileRecord(data, FromLE(data[16..18]), FromLE(data[18..20]), FromLE(data[20..22]), flags % 2 == 1,
               flags / 2 % 2 == 1,
               FromLE(data[24..28]), FromLE(data[32..40]) % 0x1_0000_0000_0000)
  }

  /** The fields of a record header in the order in which they are stored. */
  datatype RecordHeader = RecordHeader(
    usaOffset: U16, usaCount: U16, logFileSequence: U64, sequence: U16, hardLinkCount: U16, attrsOffset: U16,
    flags: U16, bytesUsed: U32, bytesAllocated: U32, baseRecord: U64)

  function HeaderBytes(h: RecordHeader): seq<Byte> {
    [0x46, 0x49, 0x4C, 0x45] + ToLE(h.usaOffset, 2) + ToLE(h.usaCount, 2) + ToLE(h.logFileSequence, 8)
      + (ToLE(h.sequence, 2) + ToLE(h.hardLinkCount, 2) + ToLE(h.attrsOffset, 2) + ToLE(h.flags, 2)
           + (ToLE(h.bytesUsed, 4) + ToLE(h.bytesAllocated, 4) + ToLE(h.baseRecord, 8)))
  }

  /** A header that was written field after field reads back as its fields. */
  lemma HeaderRoundTrip(h: RecordHeader, rest: seq<Byte>, sector: nat)
    requires |rest| >= 2
    ensures var data := HeaderBytes(h) + rest;
      && |data| >= 42 && data[..4] == FILE_SIGNATURE && UsaOf(data, sector) == Usa(h.usaOffset, h.usaCount, sector)
      && HeaderOf(data) == FileRecord(data, h.sequence, h.hardLinkCount, h.attrsOffset, h.flags % 2 == 1,
                                      h.flags / 2 % 2 == 1, h.bytesUsed, h.baseRecord % 0x1_0000_0000_0000)
  {
    HeaderSlices(h, rest);
    hide ToLE, FromLE, HeaderBytes;
    Pow256Values();
    FromToLE(h.usaOffset, 2);
    FromToLE(h.usaCount, 2);
    FromToLE(h.sequence, 2);
    FromToLE(h.hardLinkCount, 2);
    FromToLE(h.attrsOffset, 2);
    FromToLE(h.flags, 2);
    FromToLE(h.bytesUsed, 4);
    FromToLE(h.baseRecord, 8);
  }

  lemma HeaderSlices(h: RecordHeader, rest: seq<Byte>)
    requires |rest| >= 2
    ensures var data := HeaderBytes(h) + rest;
      && |data| >= 42 && data[..4] == FILE_SIGNATURE
      && data[4..6] == ToLE(h.usaOffset, 2) && data[6..8] == ToLE(h.usaCount, 2)
      && data[16..18] == ToLE(h.sequence, 2) && data[18..20] == ToLE(h.hardLinkCount, 2)
      && data[20..22] == ToLE(h.attrsOffset, 2) && data[22..24] == ToLE(h.flags, 2)
      && data[24..28] == ToLE(h.bytesUsed, 4) && data[32..40] == ToLE(h.baseRecord, 8)
  {
    hide ToLE;
  }

  predicate HeaderInBounds(record: FileRecord) {
    record.attrsOffset < |record.data| && record.bytesUsed <= |record.data|
  }

  /** Everything `parse_file_record` asks of a record. */
  ghost predicate Accepts(raw: seq<Byte>, sector: nat)
    requires sector >= 2
  {
    && |raw| >= 42 && raw[..4] == FILE_SIGNATURE
    && var usa := UsaOf(raw, sector);
      && Plausible(usa, |raw|) && Placed(usa, |raw|) && Intact(usa, raw)
      && forall data :: Restored(usa, raw, data) ==> HeaderInBounds(HeaderOf(data))
  }

  /** A record has one restoration. */
  lemma RestoredUnique(usa: Usa, raw: seq<Byte>, a: seq<Byte>, b: seq<Byte>)
    requires Placed(usa, |raw|) && Restored(usa, raw, a) && Restored(usa, raw, b)
    ensures a == b
  {
    SameLength(usa, raw, a);
    SameLength(usa, raw, b);
    hide Usa.End, Restored, Placed;
    forall p | 0 <= p < |raw|
      ensures a[p] == b[p]
    {
      RestoredByte(usa, raw, a, p);
      RestoredByte(usa, raw, b, p);
      if i: nat :| AtEnd(usa, i, p) {
        assert FromArray(usa, raw, a, p, i) && FromArray(usa, raw, b, p, i);
      }
    }
  }

  ghost predicate FromArray(usa: Usa, raw: seq<Byte>, data: seq<Byte>, p: nat, i: nat)
    requires Placed(usa, |raw|) && AtEnd(usa, i, p) && p < |data|
  {
    data[p] == raw[usa.offset + 2 * i + (p - usa.End(i))]
  }

  lemma RestoredByte(usa: Usa, raw: seq<Byte>, data: seq<Byte>, p: nat)
    requires Placed(usa, |raw|) && Restored(usa, raw, data) && p < |raw| == |data|
    ensures forall i: nat :: AtEnd(usa, i, p) ==> FromArray(usa, raw, data, p, i)
    ensures (forall i: nat :: !AtEnd(usa, i, p)) ==> data[p] == raw[p]
  {
    hide Usa.End;
    forall i: nat | AtEnd(usa, i, p)
      ensures FromArray(usa, raw, data, p, i)
    {
      assert p == usa.End(i) || p == usa.End(i) + 1;
    }
  }

  lemma OnlyHeader(usa: Usa, raw: seq<Byte>, data: seq<Byte>)
    requires Placed(usa, |raw|) && Restored(usa, raw, data) && |data| >= 42 && HeaderInBounds(HeaderOf(data))
    ensures forall other :: Restored(usa, raw, other) ==> |other| >= 42 && HeaderInBounds(HeaderOf(other))
  {
    hide Restored, HeaderInBounds;
    forall other | Restored(usa, raw, other)
      ensures other == data
    {
      RestoredUnique(usa, raw, data, other);
    }
  }

  /**
   * `parse_file_record`: torn sectors are always noticed, and what is returned is the record as it was before
   * protection.
   */
  method ParseFileRecord(raw: seq<Byte>, sector: nat) returns (r: Result<FileRecord, RecordError>)
    requires sector >= 2
    ensures r.Ok? <==> Accepts(raw, sector)
    ensures r == Err(NotAFileRecord) <==> |raw| < 42 || raw[..4] != FILE_SIGNATURE
    ensures r.Ok? ==>
        |raw| >= 42 && Plausible(UsaOf(raw, sector), |raw|) && Placed(UsaOf(raw, sector), |raw|) &&
          Intact(UsaOf(raw, sector), raw) &&
        Restored(UsaOf(raw, sector), raw, r.value.data) && r.value == HeaderOf(r.value.data) && HeaderInBounds(r.value)
    ensures r == Err(FixupMismatch) ==>
        |raw| >= 42 && Plausible(UsaOf(raw, sector), |raw|) && Placed(UsaOf(raw, sector), |raw|) &&
          !Intact(UsaOf(raw, sector), raw)
    ensures |raw| >= 42 && raw[..4] == FILE_SIGNATURE && Plausible(UsaOf(raw, sector), |raw|) ==>
        Placed(UsaOf(raw, sector), |raw|) && (!Intact(UsaOf(raw, sector), raw) ==> r == Err(FixupMismatch))
  {
    hide Intact, Restored, FromLE;
    if |raw| < 42 || raw[..4] != FILE_SIGNATURE {
      return Err(NotAFileRecord);
    }
    var usa := UsaOf(raw, sector);
    if usa.count == 0 || usa.count > |raw| / sector + 1 || usa.offset + 2 * usa.count > |raw| {
      return Err(Corrupt);
    }
    CountPlaces(usa, |raw|);
    var data :- ApplyFixups(raw, usa);
    SameLength(usa, raw, data);
    var record := HeaderOf(data);
    if record.attrsOffset >= |data| || record.bytesUsed > |data| {
      return Err(Corrupt);
    }
    OnlyHeader(usa, raw, data);
    return Ok(record);
  }

  /** An intact record is accepted exactly when its restored header points inside it. */
  lemma AcceptedInBounds(raw: seq<Byte>, sector: nat, data: seq<Byte>)
    requires sector >= 2 && |raw| >= 42 && raw[..4] == FILE_SIGNATURE
    requires Plausible(UsaOf(raw, sector), |raw|) && Placed(UsaOf(raw, sector), |raw|)
    requires Intact(UsaOf(raw, sector), raw) && Restored(UsaOf(raw, sector), raw, data)
    ensures |data| == |raw|
    ensures Accepts(raw, sector) <==> HeaderOf(data).attrsOffset < |raw| && HeaderOf(data).bytesUsed <= |raw|
  {
    hide Intact, Restored, FromLE, Plausible, Placed;
    SameLength(UsaOf(raw, sector), raw, data);
    if HeaderInBounds(HeaderOf(data)) {
      OnlyHeader(UsaOf(raw, sector), raw, data);
    }
  }

  lemma SameLength(usa: Usa, raw: seq<Byte>, data: seq<Byte>)
    requires Placed(usa, |raw|) && Restored(usa, raw, data)
    ensures |data| == |raw|
  {
  }

  // ---------- Protection ----------

  /** The array lies before the first protected sector end. */
  ghost predicate BeforeEnds(usa: Usa, len: nat) {
    Placed(usa, len) && usa.offset + 2 * usa.count <= usa.sector - 2
  }

  /** `raw` is `clean` with its sector ends saved in the array and replaced by the update sequence number. */
  ghost predicate Protects(usa: Usa, clean: seq<Byte>, raw: seq<Byte>, first: Byte, second: Byte)
    requires Placed(usa, |clean|)
  {
    && |raw| == |clean| && raw[usa.offset] == first && raw[usa.offset + 1] == second
    && (forall i: nat :: 1 <= i < usa.count ==>
          raw[usa.End(i)] == first && raw[usa.End(i) + 1] == second &&
          raw[usa.offset + 2 * i] == clean[usa.End(i)] && raw[usa.offset + 2 * i + 1] == clean[usa.End(i) + 1])
    && (forall p :: 0 <= p < |clean| && !usa.Holds(p) && (forall i: nat :: !AtEnd(usa, i, p)) ==> raw[p] == clean[p])
  }

  /** Protecting and restoring gives the record back, but for the array itself; and a protected record is intact. */
  lemma FixupRoundTrip(usa: Usa, clean: seq<Byte>, raw: seq<Byte>, first: Byte, second: Byte, data: seq<Byte>)
    requires BeforeEnds(usa, |clean|) && Protects(usa, clean, raw, first, second)
    ensures Intact(usa, raw)
    ensures Restored(usa, raw, data) ==>
        |data| == |clean| && forall p :: 0 <= p < |clean| && !usa.Holds(p) ==> data[p] == clean[p]
  {
    if Restored(usa, raw, data) {
      SameLength(usa, raw, data);
      hide Usa.End, Restored, Protects, Placed;
      forall p | 0 <= p < |clean| && !usa.Holds(p)
        ensures data[p] == clean[p]
      {
        RestoredByte(usa, raw, data, p);
        ProtectedByte(usa, clean, raw, first, second, p);
        if i: nat :| AtEnd(usa, i, p) {
          assert FromArray(usa, raw, data, p, i) && FromArray(usa, raw, clean, p, i);
        }
      }
    }
  }

  /** Outside the array, a byte of the clean record is where a restoration looks for it. */
  lemma ProtectedByte(usa: Usa, clean: seq<Byte>, raw: seq<Byte>, first: Byte, second: Byte, p: nat)
    requires Placed(usa, |clean|) && Protects(usa, clean, raw, first, second) && p < |clean| && !usa.Holds(p)
    ensures forall i: nat :: AtEnd(usa, i, p) ==> FromArray(usa, raw, clean, p, i)
    ensures (forall i: nat :: !AtEnd(usa, i, p)) ==> clean[p] == raw[p]
  {
    hide Usa.End;
    forall i: nat | AtEnd(usa, i, p)
      ensures FromArray(usa, raw, clean, p, i)
    {
      assert p == usa.End(i) || p == usa.End(i) + 1;
    }
  }

  /**
   * A well-formed record, once protected, is accepted, and whatever its restoration is, it has the header of the
   * clean record and the clean bytes everywhere outside the array.
   */
  lemma ProtectedAccepted(clean: seq<Byte>, raw: seq<Byte>, sector: nat, first: Byte, second: Byte)
    requires sector >= 2 && |clean| >= 42 && clean[..4] == FILE_SIGNATURE && HeaderInBounds(HeaderOf(clean))
    requires var usa := UsaOf(clean, sector);
      usa.offset >= 42 && Plausible(usa, |clean|) && BeforeEnds(usa, |clean|) &&
        Protects(usa, clean, raw, first, second)
    ensures Accepts(raw, sector) && UsaOf(raw, sector) == UsaOf(clean, sector)
    ensures forall data :: Restored(UsaOf(raw, sector), raw, data) ==>
      && HeaderOf(data) == HeaderOf(clean).(data := data)
      && |data| == |clean| && forall p :: 0 <= p < |clean| && !UsaOf(raw, sector).Holds(p) ==> data[p] == clean[p]
  {
    var usa := UsaOf(clean, sector);
    HeaderUntouched(usa, clean, raw, first, second);
    forall data | Restored(usa, raw, data)
      ensures |data| == |clean| && HeaderOf(data) == HeaderOf(clean).(data := data)
      ensures forall p :: 0 <= p < |clean| && !usa.Holds(p) ==> data[p] == clean[p]
    {
      FixupRoundTrip(usa, clean, raw, first, second, data);
      SameHeader(clean, data);
    }
    FixupRoundTrip(usa, clean, raw, first, second, clean);
  }

  /** Neither the array nor a sector end reaches into the header. */
  lemma HeaderUntouched(usa: Usa, clean: seq<Byte>, raw: seq<Byte>, first: Byte, second: Byte)
    requires |clean| >= 42 && usa.offset >= 42 && BeforeEnds(usa, |clean|) && Protects(usa, clean, raw, first, second)
    ensures |raw| == |clean| && raw[..42] == clean[..42]
    ensures raw[..4] == clean[..4] && UsaOf(raw, usa.sector) == UsaOf(clean, usa.sector)
  {
    hide Usa.End;
    forall p | 0 <= p < 42
      ensures raw[p] == clean[p]
    {
      forall i: nat
        ensures !AtEnd(usa, i, p)
      {
        if i >= 1 {
          EndAfterArray(usa, i);
        }
      }
    }
    assert raw[..42] == clean[..42];
    assert raw[..4] == raw[..42][..4] && raw[4..6] == raw[..42][4..6] && raw[6..8] == raw[..42][6..8];
    assert clean[..4] == clean[..42][..4] && clean[4..6] == clean[..42][4..6] && clean[6..8] == clean[..42][6..8];
  }

  lemma SameHeader(a: seq<Byte>, b: seq<Byte>)
    requires |a| == |b| >= 42 && forall p :: 0 <= p < 42 ==> a[p] == b[p]
    ensures HeaderOf(b) == HeaderOf(a).(data := b)
  {
    assert a[16..18] == b[16..18] && a[18..20] == b[18..20] && a[20..22] == b[20..22] && a[22..24] == b[22..24];
    assert a[24..28] == b[24..28] && a[32..40] == b[32..40];
  }

  /** The protection done before sector `k`. */
  ghost predicate ProtectedTo(usa: Usa, clean: seq<Byte>, raw: seq<Byte>, first: Byte, second: Byte, k: nat)
    requires Placed(usa, |clean|)
  {
    && |raw| == |clean| && raw[usa.offset] == first && raw[usa.offset + 1] == second
    && (forall i: nat :: 1 <= i < usa.count && i < k ==>
          raw[usa.End(i)] == first && raw[usa.End(i) + 1] == second &&
          raw[usa.offset + 2 * i] == clean[usa.End(i)] && raw[usa.offset + 2 * i + 1] == clean[usa.End(i) + 1])
    && (forall i: nat :: 1 <= i < usa.count && i >= k ==>
          raw[usa.End(i)] == clean[usa.End(i)] && raw[usa.End(i) + 1] == clean[usa.End(i) + 1])
    && (forall p :: 0 <= p < |clean| && !usa.Holds(p) && (forall i: nat :: !AtEnd(usa, i, p)) ==> raw[p] == clean[p])
  }

  lemma ProtectOne(usa: Usa, clean: seq<Byte>, raw: seq<Byte>, after: seq<Byte>, first: Byte, second: Byte, k: nat)
    requires BeforeEnds(usa, |clean|) && ProtectedTo(usa, clean, raw, first, second, k) && 1 <= k < usa.count
    requires |after| == |raw|
    requires after[usa.offset + 2 * k] == clean[usa.End(k)] && after[usa.offset + 2 * k + 1] == clean[usa.End(k) + 1]
    requires after[usa.End(k)] == first && after[usa.End(k) + 1] == second
    requires forall p :: 0 <= p < |raw| && !AtEnd(usa, k, p) && !(0 <= p - (usa.offset + 2 * k) <= 1) ==>
      after[p] == raw[p]
    ensures ProtectedTo(usa, clean, after, first, second, k + 1)
  {
    SameElsewhere(usa, raw, after, k);
    EndAfterArray(usa, k);
    hide Usa.End;
  }

  /** Protecting sector `k` touches no other sector end and no other entry of the array. */
  lemma SameElsewhere(usa: Usa, raw: seq<Byte>, after: seq<Byte>, k: nat)
    requires BeforeEnds(usa, |raw|) && 1 <= k < usa.count && |after| == |raw|
    requires forall p :: 0 <= p < |raw| && !AtEnd(usa, k, p) && !(0 <= p - (usa.offset + 2 * k) <= 1) ==>
      after[p] == raw[p]
    ensures forall i: nat :: 1 <= i < usa.count && i != k ==>
      after[usa.End(i)] == raw[usa.End(i)] && after[usa.End(i) + 1] == raw[usa.End(i) + 1]
    ensures forall i: nat :: 1 <= i < usa.count && i != k ==>
      && after[usa.offset + 2 * i] == raw[usa.offset + 2 * i]
      && after[usa.offset + 2 * i + 1] == raw[usa.offset + 2 * i + 1]
    ensures after[usa.offset] == raw[usa.offset] && after[usa.offset + 1] == raw[usa.offset + 1]
  {
    hide Usa.End;
    FirstEnd(usa);
    EndAfterArray(usa, k);
    forall i: nat | 1 <= i < usa.count && i != k
      ensures after[usa.End(i)] == raw[usa.End(i)] && after[usa.End(i) + 1] == raw[usa.End(i) + 1]
      ensures after[usa.offset + 2 * i] == raw[usa.offset + 2 * i]
      ensures after[usa.offset + 2 * i + 1] == raw[usa.offset + 2 * i + 1]
    {
      if i < k {
        EndsApart(usa, i, k);
      } else {
        EndsApart(usa, k, i);
      }
      EndAfterArray(usa, i);
      assert !AtEnd(usa, k, usa.End(i)) && !AtEnd(usa, k, usa.End(i) + 1);
    }
  }

  lemma FirstEnd(usa: Usa)
    ensures usa.End(1) == usa.sector - 2
  {
  }

  lemma EndAfterArray(usa: Usa, i: nat)
    requires usa.sector >= 2 && usa.offset + 2 * usa.count <= usa.sector - 2 && i >= 1
    ensures usa.offset + 2 * usa.count <= usa.End(i)
  {
    ProductOrder(1, i, usa.sector);
  }

  /** The last loop of `build_record`: save the sector ends, then overwrite them. */
  method ProtectRecord(r: array<Byte>, usa: Usa, first: Byte, second: Byte)
    requires BeforeEnds(usa, r.Length)
    modifies r
    ensures Protects(usa, old(r[..]), r[..], first, second)
  {
    ghost var clean := r[..];
    r[usa.offset] := first;
    r[usa.offset + 1] := second;
    StartProtection(usa, clean, r[..], first, second);
    hide ProtectedTo, Usa.End;
    var k := 1;
    while k < usa.count
      invariant 1 <= k <= usa.count && ProtectedTo(usa, clean, r[..], first, second, k)
    {
      ghost var before := r[..];
      EndUnchanged(usa, clean, before, first, second, k);
      EndAfterArray(usa, k);
      var end := usa.End(k);
      var low, high := r[end], r[end + 1];
      r[usa.offset + 2 * k] := low;
      r[usa.offset + 2 * k + 1] := high;
      r[end] := first;
      r[end + 1] := second;
      ProtectOne(usa, clean, before, r[..], first, second, k);
      k := k + 1;
    }
    AllProtected(usa, clean, r[..], first, second, k);
  }

  lemma StartProtection(usa: Usa, clean: seq<Byte>, raw: seq<Byte>, first: Byte, second: Byte)
    requires BeforeEnds(usa, |clean|) && |raw| == |clean| && raw[usa.offset] == first && raw[usa.offset + 1] == second
    requires forall p :: 0 <= p < |clean| && p != usa.offset && p != usa.offset + 1 ==> raw[p] == clean[p]
    ensures ProtectedTo(usa, clean, raw, first, second, 1)
  {
    forall i: nat | 1 <= i < usa.count
      ensures usa.End(i) > usa.offset + 1
    {
      EndAfterArray(usa, i);
    }
  }

  lemma EndUnchanged(usa: Usa, clean: seq<Byte>, raw: seq<Byte>, first: Byte, second: Byte, k: nat)
    requires Placed(usa, |clean|) && ProtectedTo(usa, clean, raw, first, second, k) && 1 <= k < usa.count
    ensures raw[usa.End(k)] == clean[usa.End(k)] && raw[usa.End(k) + 1] == clean[usa.End(k) + 1]
  {
  }

  lemma AllProtected(usa: Usa, clean: seq<Byte>, raw: seq<Byte>, first: Byte, second: Byte, k: nat)
    requires Placed(usa, |clean|) && ProtectedTo(usa, clean, raw, first, second, k) && k >= usa.count
    ensures Protects(usa, clean, raw, first, second)
  {
  }
}
