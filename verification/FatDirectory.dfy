/** FAT directory slots: the parser (crates/fs-fat/src/dir.rs) and the fixture encoder it must invert. */
module FatDirectory {
  import opened Common
  import opened FatShortNames

  const SLOT: nat := 32
  const UNITS_PER_SLOT: nat := 13
  const ATTR_VOLUME_ID: nat := 0x08
  const ATTR_DIRECTORY: nat := 0x10
  const ATTR_LFN: nat := 0x0F

  datatype DirEntry = DirEntry(
    name: Units, nameCertain: bool, isDeleted: bool, isDirectory: bool, isVolumeLabel: bool, firstCluster: nat,
    size: nat, entryOffset: nat)

  // ---------- Checksum ----------

  function Rotate(sum: Byte): Byte {
    sum % 2 * 128 + sum / 2
  }

  function Checksum(short: seq<Byte>): Byte {
    if short == [] then 0 else (Rotate(Checksum(short[..|short| - 1])) + short[|short| - 1]) % 256
  }

  /** Shifting left, the top bit coming back in at the bottom, undoes the rotation. */
  lemma RotatesRight(sum: Byte)
    ensures 2 * (Rotate(sum) as int) % 256 + Rotate(sum) / 128 == sum
  {
  }

  lemma SumInjective(a: Byte, b: Byte, c: Byte)
    ensures (a + c) % 256 == (b + c) % 256 <==> a == b
  {
  }

  /** The checksum of a name, and of the name with one byte changed, always differ. */
  lemma {:induction false} ChecksumNoticesOneByte(a: seq<Byte>, b: seq<Byte>, k: nat)
    requires |a| == |b| && k < |a| && a[k] != b[k] && forall i :: 0 <= i < |a| && i != k ==> a[i] == b[i]
    ensures Checksum(a) != Checksum(b)
  {
    hide Rotate;
    var n := |a| - 1;
    var before, other := Checksum(a[..n]), Checksum(b[..n]);
    if k < n {
      ChecksumNoticesOneByte(a[..n], b[..n], k);
      RotatesRight(before);
      RotatesRight(other);
      SumInjective(Rotate(before), Rotate(other), a[n]);
    } else {
      assert a[..n] == b[..n];
      SumInjective(a[n], b[n], Rotate(before));
    }
  }

  /** `lfn_checksum`. */
  method LfnChecksum(short: seq<Byte>) returns (sum: Byte)
    ensures sum == Checksum(short)
  {
    sum := 0;
    for i := 0 to |short|
      invariant sum == Checksum(short[..i])
    {
      assert short[..i + 1][..i] == short[..i];
      sum := (Rotate(sum) + short[i]) % 256;
    }
    assert short[..|short|] == short;
  }

  // ---------- Units in a slot ----------

  function UnitBytes(units: Units): (s: seq<Byte>)
    ensures |s| == 2 * |units|
  {
    if units == [] then [] else UnitBytes(units[..|units| - 1]) + ToLE(units[|units| - 1], 2)
  }

  function UnitAt(low: Byte, high: Byte): U16 {
    low + 256 * high
  }

  function UnitsOf(bytes: seq<Byte>): (units: Units)
    requires |bytes| % 2 == 0
    ensures |units| == |bytes| / 2
  {
    if bytes == [] then [] else UnitsOf(bytes[..|bytes| - 2]) + [UnitAt(bytes[|bytes| - 2], bytes[|bytes| - 1])]
  }

  lemma TwoBytes(v: U16)
    ensures ToLE(v, 2) == [v % 256, v / 256] && UnitAt(v % 256, v / 256) == v
  {
    assert ToLE(v / 256, 1) == [v / 256 % 256] + ToLE(v / 256 / 256, 0);
  }

  lemma UnitsSnoc(bytes: seq<Byte>, low: Byte, high: Byte)
    requires |bytes| % 2 == 0
    ensures UnitsOf(bytes + [low, high]) == UnitsOf(bytes) + [UnitAt(low, high)]
  {
    var longer := bytes + [low, high];
    assert longer[..|longer| - 2] == bytes;
  }

  lemma {:induction false} UnitsRoundTrip(units: Units)
    ensures UnitsOf(UnitBytes(units)) == units
  {
    hide ToLE, UnitAt;
    if units != [] {
      var rest, last := units[..|units| - 1], units[|units| - 1];
      UnitsRoundTrip(rest);
      TwoBytes(last);
      UnitsSnoc(UnitBytes(rest), last % 256, last / 256);
      assert units == rest + [last];
    }
  }

  function LfnUnits(slot: seq<Byte>): (units: Units)
    requires |slot| == SLOT
    ensures |units| == UNITS_PER_SLOT
  {
    UnitsOf(slot[1..11]) + UnitsOf(slot[14..26]) + UnitsOf(slot[28..32])
  }

  /** Appends the units of `slot[lo..hi]`: the inner loop of `lfn_units`. */
  method ReadUnits(slot: seq<Byte>, lo: nat, hi: nat, before: Units) returns (units: Units)
    requires lo <= hi <= |slot| && (hi - lo) % 2 == 0
    ensures units == before + UnitsOf(slot[lo..hi])
  {
    NoUnits();
    hide UnitAt, UnitsOf;
    units := before;
    var pos := lo;
    assert slot[lo..lo] == [];
    while pos < hi
      invariant lo <= pos <= hi && (pos - lo) % 2 == 0
      invariant units == before + UnitsOf(slot[lo..pos])
    {
      assert pos + 2 <= hi;
      assert slot[lo..pos + 2] == slot[lo..pos] + [slot[pos], slot[pos + 1]];
      UnitsSnoc(slot[lo..pos], slot[pos], slot[pos + 1]);
      units := units + [UnitAt(slot[pos], slot[pos + 1])];
      pos := pos + 2;
    }
  }

  lemma NoUnits()
    ensures UnitsOf([]) == []
  {
  }

  /** `lfn_units`. */
  method ReadLfnUnits(slot: seq<Byte>) returns (units: Units)
    requires |slot| == SLOT
    ensures units == LfnUnits(slot)
  {
    units := ReadUnits(slot, 1, 11, []);
    units := ReadUnits(slot, 14, 26, units);
    units := ReadUnits(slot, 28, 32, units);
  }

  // ---------- Parsing ----------

  /** Long-name parts seen since the last short entry, in disk order, with the checksum and marker of the latest. */
  datatype Pending = Pending(parts: seq<Units>, checksum: Option<Byte>, deleted: bool)

  const NOTHING := Pending([], None, false)

  function AddPart(p: Pending, slot: seq<Byte>): Pending
    requires |slot| == SLOT
  {
    var deleted, checksum := slot[0] == DELETED, slot[13];
    var cleared := if deleted then !p.deleted else p.checksum.Some? && p.checksum != Some(checksum);
    Pending((if cleared then [] else p.parts) + [LfnUnits(slot)], Some(checksum), deleted)
  }

  function JoinReversed(parts: seq<Units>): Units {
    if parts == [] then [] else parts[|parts| - 1] + JoinReversed(parts[..|parts| - 1])
  }

  function TrimPadding(units: Units): Units {
    if units != [] && (units[|units| - 1] == 0 || units[|units| - 1] == 0xFFFF) then TrimPadding(units[..|units| - 1])
    else units
  }

  function LongName(p: Pending, raw: seq<Byte>, deleted: bool): Units
    requires |raw| == 11
  {
    if p.parts != [] && (if deleted then p.deleted else p.checksum == Some(Checksum(raw)))
    then TrimPadding(JoinReversed(p.parts))
    else []
  }

  function HasBit(value: Byte, bit: nat): bool
    requires bit > 0
  {
    value / bit % 2 == 1
  }

  /** What a short entry yields: at most one directory entry. */
  function Emit(p: Pending, slot: seq<Byte>, offset: nat): seq<DirEntry>
    requires |slot| == SLOT
  {
    var raw, deleted, attrs := slot[..11], slot[0] == DELETED, slot[11];
    var short, long := DecodeShortName(raw, deleted), LongName(p, raw, deleted);
    var name := if long != [] then long else short.0;
    if HasBit(attrs, ATTR_VOLUME_ID) && !deleted then []
    else if name == [0x2E] || name == [0x2E, 0x2E] then []
    else
      [DirEntry(
        name, if long != [] then !deleted else short.1, deleted,
        HasBit(attrs, ATTR_DIRECTORY), HasBit(attrs, ATTR_VOLUME_ID),
        FromLE(slot[20..22]) * 0x1_0000 + FromLE(slot[26..28]), FromLE(slot[28..32]), offset)]
  }

  function Parse(p: Pending, data: seq<Byte>, offset: nat): seq<DirEntry>
    decreases |data|
  {
    if |data| < SLOT || data[0] == 0 then []
    else
      var slot := data[..SLOT];
      if slot[11] == ATTR_LFN then Parse(AddPart(p, slot), data[SLOT..], offset + SLOT)
      else Emit(p, slot, offset) + Parse(NOTHING, data[SLOT..], offset + SLOT)
  }

  /** `parse_directory`. */
  method ParseDirectory(data: seq<Byte>, baseOffset: nat) returns (out: seq<DirEntry>)
    ensures out == Parse(NOTHING, data, baseOffset)
  {
    hide Emit, AddPart;
    out := [];
    var pending := NOTHING;
    var at := 0;
    assert data[0..] == data;
    while at + SLOT <= |data|
      invariant at <= |data|
      invariant out + Parse(pending, data[at..], baseOffset + at) == Parse(NOTHING, data, baseOffset)
      decreases |data| - at
    {
      var slot := data[at..at + SLOT];
      assert data[at..][..SLOT] == slot && data[at..][SLOT..] == data[at + SLOT..];
      if slot[0] == 0 {
        return;
      }
      if slot[11] == ATTR_LFN {
        pending := ReadPart(pending, slot);
      } else {
        var found := ReadShort(pending, slot, baseOffset + at);
        assert (out + found) + Parse(NOTHING, data[at + SLOT..], baseOffset + at + SLOT) ==
               out + (found + Parse(NOTHING, data[at + SLOT..], baseOffset + at + SLOT));
        out := out + found;
        pending := NOTHING;
      }
      at := at + SLOT;
    }
  }

  /** One long-name slot. */
  method ReadPart(pending: Pending, slot: seq<Byte>) returns (next: Pending)
    requires |slot| == SLOT
    ensures next == AddPart(pending, slot)
  {
    var checksum := slot[13];
    var parts, deleted := pending.parts, slot[0] == DELETED;
    if !deleted {
      if pending.checksum.Some? && pending.checksum != Some(checksum) {
        parts := [];
      }
    } else {
      if !pending.deleted {
        parts := [];
      }
    }
    var units := ReadLfnUnits(slot);
    next := Pending(parts + [units], Some(checksum), deleted);
  }

  /** The long name: parts in reverse disk order, without the padding. */
  method TrimmedName(parts: seq<Units>) returns (units: Units)
    ensures units == TrimPadding(JoinReversed(parts))
  {
    units := [];
    assert parts[..|parts|] == parts;
    for k := 0 to |parts|
      invariant JoinReversed(parts) == units + JoinReversed(parts[..|parts| - k])
    {
      ghost var left := parts[..|parts| - k];
      assert left[..|left| - 1] == parts[..|parts| - (k + 1)];
      units := units + parts[|parts| - 1 - k];
    }
    assert units == JoinReversed(parts);
    while units != [] && (units[|units| - 1] == 0 || units[|units| - 1] == 0xFFFF)
      invariant TrimPadding(units) == TrimPadding(JoinReversed(parts))
      decreases |units|
    {
      units := units[..|units| - 1];
    }
  }

  /** One short slot. */
  method ReadShort(pending: Pending, slot: seq<Byte>, offset: nat) returns (found: seq<DirEntry>)
    requires |slot| == SLOT
    ensures found == Emit(pending, slot, offset)
  {
    var raw, deleted, attrs := slot[..11], slot[0] == DELETED, slot[11];
    var (name, certain) := DecodeShortName(raw, deleted);
    if pending.parts != [] {
      var checksum := LfnChecksum(raw);
      if if deleted then pending.deleted else pending.checksum == Some(checksum) {
        var units := TrimmedName(pending.parts);
        if units != [] {
          name, certain := units, !deleted;
        }
      }
    }
    if HasBit(attrs, ATTR_VOLUME_ID) && !deleted {
      return [];
    }
    if name == [0x2E] || name == [0x2E, 0x2E] {
      return [];
    }
    return [DirEntry(
      name, certain, deleted, HasBit(attrs, ATTR_DIRECTORY), HasBit(attrs, ATTR_VOLUME_ID),
      FromLE(slot[20..22]) * 0x1_0000 + FromLE(slot[26..28]), FromLE(slot[28..32]), offset)];
  }

  // ---------- The encoder ----------

  const DOS_DATE: nat := 22575
  const DOS_TIME: nat := 24576

  /**
   * An entry as the fixture builder writes it. With long-name slots its short name is a generated one, given here;
   * without them (`noLfn`) it is made from the name.
   */
  datatype Item = Item(name: Units, short: seq<Byte>, isDirectory: bool, deleted: bool, firstCluster: U32, size: U32,
                       noLfn: bool)

  predicate IsDot(name: Units) {
    name == [0x2E] || name == [0x2E, 0x2E]
  }

  predicate ValidItem(item: Item) {
    if item.noLfn then
      IsAscii(item.name) && EightDotThree(Narrow(item.name)) && item.short == ShortName(Narrow(item.name))
    else
      && 0 < |item.name| <= 255 && !IsDot(item.name)
      && item.name[|item.name| - 1] != 0 && item.name[|item.name| - 1] != 0xFFFF
      && |item.short| == 11 && item.short[0] != 0 && item.short[0] != DELETED
  }

  /** The name a parser can show: a short name is in capitals, and a deleted one has lost its first character. */
  function ShownName(item: Item): Units
    requires ValidItem(item)
  {
    if !item.noLfn then item.name
    else
      var text := UpperAll(Narrow(item.name));
      Widen(if item.deleted then [0x5F] + text[1..] else text)
  }

  function SlotCount(item: Item): nat {
    if item.noLfn then 0 else PartCount(item.name)
  }

  function PartCount(name: Units): nat {
    CeilDiv(|name|, UNITS_PER_SLOT)
  }

  lemma PartCountBound(name: Units)
    requires 0 < |name| <= 255
    ensures 0 < PartCount(name) <= 20 && PartCount(name) * UNITS_PER_SLOT < |name| + UNITS_PER_SLOT
    ensures |name| <= PartCount(name) * UNITS_PER_SLOT
  {
  }

  function Padding(n: nat): (units: Units)
    ensures |units| == n
  {
    if n == 0 then [] else if n == 1 then [0] else Padding(n - 1) + [0xFFFF]
  }

  /** The name filled up to whole slots: a zero, then FFFF. */
  function Padded(name: Units): (units: Units)
    ensures |units| == PartCount(name) * UNITS_PER_SLOT
  {
    name + Padding(PartCount(name) * UNITS_PER_SLOT - |name|)
  }

  function PartOf(name: Units, i: nat): (part: Units)
    requires i < PartCount(name)
    ensures |part| == UNITS_PER_SLOT
  {
    Padded(name)[i * UNITS_PER_SLOT..i * UNITS_PER_SLOT + UNITS_PER_SLOT]
  }

  function SequenceByte(i: nat, count: nat): Byte
    requires i < count <= 20
  {
    if i + 1 == count then i + 1 + 0x40 else i + 1
  }

  function LfnSlot(first: Byte, checksum: Byte, part: Units): (slot: seq<Byte>)
    requires |part| == UNITS_PER_SLOT
    ensures |slot| == SLOT
  {
    [first] + UnitBytes(part[..5]) + [ATTR_LFN, 0, checksum] + UnitBytes(part[5..11]) + [0, 0] + UnitBytes(part[11..])
  }

  function ShortSlot(item: Item): (slot: seq<Byte>)
    requires |item.short| == 11
    ensures |slot| == SLOT
  {
    [if item.deleted then DELETED else item.short[0]] + item.short[1..] +
    [if item.isDirectory then 0x10 else 0x20, 0, 0] + TimeStamp() + [0, 0] + ToLE(item.firstCluster / 0x1_0000, 2) +
    TimeStamp() + ToLE(item.firstCluster % 0x1_0000, 2) + SizeField(item)
  }

  function TimeStamp(): (s: seq<Byte>)
    ensures |s| == 4
  {
    ToLE(DOS_TIME, 2) + ToLE(DOS_DATE, 2)
  }

  /** A directory's size is left zero. */
  function SizeField(item: Item): (s: seq<Byte>)
    ensures |s| == 4
  {
    if item.isDirectory then [0, 0, 0, 0] else ToLE(item.size, 4)
  }

  /** The slots of the parts below `i`, last part first. */
  function LfnSlots(item: Item, i: nat): seq<Byte>
    requires ValidItem(item) && i <= SlotCount(item)
  {
    if i == 0 then []
    else
      LfnSlot(if item.deleted then DELETED else SequenceByte(i - 1, PartCount(item.name)), Checksum(item.short),
              PartOf(item.name, i - 1)) +
      LfnSlots(item, i - 1)
  }

  function EntryBytes(item: Item): seq<Byte>
    requires ValidItem(item)
  {
    LfnSlots(item, SlotCount(item)) + ShortSlot(item)
  }

  lemma UnitBytesSnoc(units: Units, unit: U16)
    ensures UnitBytes(units + [unit]) == UnitBytes(units) + ToLE(unit, 2)
  {
    assert (units + [unit])[..|units|] == units;
  }

  /** Writes the next unit of the part in `e[lo..hi]`. */
  method PutUnit(e: array<Byte>, lo: nat, pos: nat, hi: nat, unit: U16)
    requires lo <= pos && pos + 2 <= hi <= e.Length
    modifies e
    ensures e[lo..pos + 2] == old(e[lo..pos]) + ToLE(unit, 2)
    ensures e[..lo] == old(e[..lo]) && e[hi..] == old(e[hi..])
  {
    hide ToLE;
    var bytes := ToLE(unit, 2);
    e[pos] := bytes[0];
    e[pos + 1] := bytes[1];
    assert bytes == [bytes[0], bytes[1]];
  }

  /** Copies a part's units into one of the three places of a slot: the inner loop of `encode_entry`. */
  method FillUnits(e: array<Byte>, lo: nat, hi: nat, units: Units)
    requires lo <= hi <= e.Length && hi == lo + 2 * |units|
    modifies e
    ensures e[lo..hi] == UnitBytes(units)
    ensures e[..lo] == old(e[..lo]) && e[hi..] == old(e[hi..])
  {
    hide UnitBytes, ToLE;
    var pos := lo;
    assert units[..0] == [] && e[lo..lo] == [];
    NoUnitBytes();
    for u := 0 to |units|
      invariant pos == lo + 2 * u
      invariant e[lo..pos] == UnitBytes(units[..u])
      invariant e[..lo] == old(e[..lo]) && e[hi..] == old(e[hi..])
    {
      PutUnit(e, lo, pos, hi, units[u]);
      assert units[..u + 1] == units[..u] + [units[u]];
      UnitBytesSnoc(units[..u], units[u]);
      pos := pos + 2;
    }
    assert units[..|units|] == units;
  }

  lemma NoUnitBytes()
    ensures UnitBytes([]) == []
  {
  }

  lemma OutsideSame(a: seq<Byte>, b: seq<Byte>, lo: nat, hi: nat)
    requires lo <= hi <= |a| == |b| && a[..lo] == b[..lo] && a[hi..] == b[hi..]
    ensures forall i :: 0 <= i < |a| && !(lo <= i < hi) ==> a[i] == b[i]
  {
    assert forall i :: 0 <= i < lo ==> a[i] == a[..lo][i];
    assert forall i :: hi <= i < |a| ==> a[i] == a[hi..][i - hi];
  }

  /** The same, seen byte by byte. */
  method FillPlace(e: array<Byte>, lo: nat, hi: nat, units: Units)
    requires lo <= hi <= e.Length && hi == lo + 2 * |units|
    modifies e
    ensures e[lo..hi] == UnitBytes(units)
    ensures forall i :: 0 <= i < e.Length && !(lo <= i < hi) ==> e[i] == old(e[i])
  {
    ghost var was := e[..];
    FillUnits(e, lo, hi, units);
    OutsideSame(e[..], was, lo, hi);
  }

  /** One long-name slot, filled in place. */
  method FillLfnSlot(first: Byte, checksum: Byte, part: Units) returns (slot: seq<Byte>)
    requires |part| == UNITS_PER_SLOT
    ensures slot == LfnSlot(first, checksum, part)
  {
    hide UnitBytes;
    var e := new Byte[SLOT](_ => 0);
    e[0], e[11], e[13] := first, ATTR_LFN, checksum;
    FillPlace(e, 1, 11, part[..5]);
    ghost var head := e[1..11];
    FillPlace(e, 14, 26, part[5..11]);
    ghost var middle := e[14..26];
    assert e[1..11] == head;
    FillPlace(e, 28, 32, part[11..]);
    assert e[1..11] == head && e[14..26] == middle;
    assert e[12] == 0 && e[26] == 0 && e[27] == 0;
    assert e[..1] == [first] && e[11..14] == [ATTR_LFN, 0, checksum] && e[26..28] == [0, 0];
    SevenPieces(e[..]);
    slot := e[..];
  }

  lemma SevenPieces(s: seq<Byte>)
    requires |s| == SLOT
    ensures s == s[..1] + s[1..11] + s[11..14] + s[14..26] + s[26..28] + s[28..32]
  {
  }

  /**
   * `encode_entry`: long-name slots from the last part to the first unless the name needs none, then the short slot.
   */
  method EncodeEntry(item: Item) returns (out: seq<Byte>)
    requires ValidItem(item)
    ensures out == EntryBytes(item)
  {
    hide ShortSlot;
    out := [];
    var short := item.short;
    if item.noLfn {
      short := MakeShortName(Narrow(item.name));
    } else {
      out := EncodeLongName(item);
    }
    out := out + ShortSlot(item.(short := short));
  }

  /** The long-name slots. */
  method EncodeLongName(item: Item) returns (out: seq<Byte>)
    requires ValidItem(item) && !item.noLfn
    ensures out == LfnSlots(item, SlotCount(item))
  {
    hide LfnSlot, PartOf, Checksum, ShortName, EightDotThree, LfnSlots;
    out := [];
    var checksum := LfnChecksum(item.short);
    var count := PartCount(item.name);
    for i := count downto 0
      invariant out + LfnSlots(item, i) == LfnSlots(item, count)
    {
      var first := if item.deleted then DELETED else SequenceByte(i, count);
      var slot := FillLfnSlot(first, checksum, PartOf(item.name, i));
      LfnSlotsStep(item, i + 1);
      assert (out + slot) + LfnSlots(item, i) == out + (slot + LfnSlots(item, i));
      out := out + slot;
    }
    LfnSlotsStep(item, 0);
  }

  lemma LfnSlotsStep(item: Item, i: nat)
    requires ValidItem(item) && !item.noLfn && i <= SlotCount(item)
    ensures i == 0 ==> LfnSlots(item, i) == []
    ensures i > 0 ==>
      var first := if item.deleted then DELETED else SequenceByte(i - 1, PartCount(item.name));
      LfnSlots(item, i)
        == LfnSlot(first, Checksum(item.short), PartOf(item.name, i - 1)) + LfnSlots(item, i - 1)
  {
    hide LfnSlot, PartOf, Checksum;
  }

  // ---------- The round trip ----------

  function Expected(item: Item, offset: nat): DirEntry
    requires ValidItem(item)
  {
    DirEntry(ShownName(item), !item.deleted, item.deleted, item.isDirectory, false, item.firstCluster,
             if item.isDirectory then 0 else item.size, offset)
  }

  lemma SlotSlices(first: Byte, checksum: Byte, a: seq<Byte>, b: seq<Byte>, c: seq<Byte>)
    requires |a| == 10 && |b| == 12 && |c| == 4
    ensures var slot := [first] + a + [ATTR_LFN, 0, checksum] + b + [0, 0] + c;
      && |slot| == SLOT && slot[0] == first && slot[11] == ATTR_LFN && slot[13] == checksum
      && slot[1..11] == a && slot[14..26] == b && slot[28..32] == c
  {
  }

  lemma LfnSlotReads(first: Byte, checksum: Byte, part: Units)
    requires |part| == UNITS_PER_SLOT
    ensures var slot := LfnSlot(first, checksum, part);
      slot[0] == first && slot[11] == ATTR_LFN && slot[13] == checksum && LfnUnits(slot) == part
  {
    hide UnitBytes, UnitsOf;
    var slot := LfnSlot(first, checksum, part);
    var a, b, c := part[..5], part[5..11], part[11..];
    SlotSlices(first, checksum, UnitBytes(a), UnitBytes(b), UnitBytes(c));
    UnitsRoundTrip(a);
    UnitsRoundTrip(b);
    UnitsRoundTrip(c);
    assert part == a + b + c;
  }

  lemma ShortSlotReads(item: Item)
    requires |item.short| == 11
    ensures var slot := ShortSlot(item);
      && slot[..11] == [if item.deleted then DELETED else item.short[0]] + item.short[1..]
      && slot[11] == (if item.isDirectory then 0x10 else 0x20)
      && FromLE(slot[20..22]) * 0x1_0000 + FromLE(slot[26..28]) == item.firstCluster
      && FromLE(slot[28..32]) == (if item.isDirectory then 0 else item.size)
  {
    hide ToLE, FromLE;
    Pow256Values();
    var slot := ShortSlot(item);
    assert slot[20..22] == ToLE(item.firstCluster / 0x1_0000, 2) &&
      slot[26..28] == ToLE(item.firstCluster % 0x1_0000, 2);
    assert slot[28..32] == if item.isDirectory then [0, 0, 0, 0] else ToLE(item.size, 4);
    FromToLE(item.firstCluster / 0x1_0000, 2);
    FromToLE(item.firstCluster % 0x1_0000, 2);
    FromToLE(item.size, 4);
    ZeroSize();
  }

  lemma ZeroSize()
    ensures FromLE([0, 0, 0, 0]) == 0
  {
    assert [0, 0, 0, 0][1..] == [0, 0, 0] && [0, 0, 0][1..] == [0, 0] && [0, 0][1..] == [0] && [0][1..] == [];
    assert FromLE([0]) == 0 && FromLE([0, 0]) == 0 && FromLE([0, 0, 0]) == 0;
  }

  /** The parts seen once those from `i` up are read. */
  function PartsFrom(name: Units, i: nat): seq<Units>
    requires i <= PartCount(name)
    decreases PartCount(name) - i
  {
    if i == PartCount(name) then [] else PartsFrom(name, i + 1) + [PartOf(name, i)]
  }

  function PendingFrom(item: Item, i: nat): Pending
    requires i <= SlotCount(item)
  {
    if i == SlotCount(item) then NOTHING else Pending(PartsFrom(item.name, i), Some(Checksum(item.short)), item.deleted)
  }

  lemma {:induction false} PartsJoin(name: Units, i: nat)
    requires i <= PartCount(name)
    ensures JoinReversed(PartsFrom(name, i)) == Padded(name)[i * UNITS_PER_SLOT..]
    decreases PartCount(name) - i
  {
    if i < PartCount(name) {
      PartsJoin(name, i + 1);
      var parts := PartsFrom(name, i);
      assert parts[..|parts| - 1] == PartsFrom(name, i + 1);
      assert Padded(name)[i * UNITS_PER_SLOT..] == PartOf(name, i) + Padded(name)[(i + 1) * UNITS_PER_SLOT..];
    }
  }

  lemma {:induction false} PaddingTrimmed(name: Units, n: nat)
    requires name != [] && name[|name| - 1] != 0 && name[|name| - 1] != 0xFFFF
    ensures TrimPadding(name + Padding(n)) == name
    decreases n
  {
    if n == 0 {
      assert name + Padding(0) == name;
    } else {
      PaddingTrimmed(name, n - 1);
      var longer := name + Padding(n);
      assert longer[..|longer| - 1] == name + Padding(n - 1);
    }
  }

  /** Reading one more part. */
  lemma PartRead(item: Item, i: nat, rest: seq<Byte>, offset: nat)
    requires ValidItem(item) && 0 < i <= SlotCount(item)
    ensures Parse(PendingFrom(item, i), LfnSlots(item, i) + rest, offset) ==
            Parse(PendingFrom(item, i - 1), LfnSlots(item, i - 1) + rest, offset + SLOT)
  {
    hide LfnSlot, LfnUnits, Checksum, PartOf, Emit;
    PartCountBound(item.name);
    var first := if item.deleted then DELETED else SequenceByte(i - 1, PartCount(item.name));
    var slot := LfnSlot(first, Checksum(item.short), PartOf(item.name, i - 1));
    LfnSlotReads(first, Checksum(item.short), PartOf(item.name, i - 1));
    var data, more := LfnSlots(item, i) + rest, LfnSlots(item, i - 1) + rest;
    assert data == slot + more;
    assert data[..SLOT] == slot && data[SLOT..] == more;
    assert AddPart(PendingFrom(item, i), slot) == PendingFrom(item, i - 1);
  }

  lemma {:induction false} PartsRead(item: Item, i: nat, rest: seq<Byte>, offset: nat)
    requires ValidItem(item) && i <= SlotCount(item)
    ensures Parse(PendingFrom(item, i), LfnSlots(item, i) + rest, offset)
      == Parse(PendingFrom(item, 0), rest, offset + i * SLOT)
    decreases i
  {
    hide Parse, LfnSlot, PendingFrom;
    if i == 0 {
      assert LfnSlots(item, 0) + rest == rest;
    } else {
      PartRead(item, i, rest, offset);
      PartsRead(item, i - 1, rest, offset + SLOT);
    }
  }

  /** The short slot closes the name. */
  lemma ShortEmits(item: Item, offset: nat)
    requires ValidItem(item)
    ensures Emit(PendingFrom(item, 0), ShortSlot(item), offset) == [Expected(item, offset)]
  {
    hide Emit, PendingFrom, Expected, ShortSlot;
    if item.noLfn {
      ShortOnlyEmits(item, offset);
    } else {
      LongEmits(item, offset);
    }
  }

  /** With a long name: only its certainty depends on deletion. */
  lemma LongEmits(item: Item, offset: nat)
    requires ValidItem(item) && !item.noLfn
    ensures Emit(PendingFrom(item, 0), ShortSlot(item), offset) == [Expected(item, offset)]
  {
    hide ShortSlot, Checksum, DecodeShortName, Padding, PartsFrom, JoinReversed, TrimPadding, FromLE, ShownName;
    assert ShownName(item) == item.name by {
      LongIsShown(item);
    }
    PartCountBound(item.name);
    ShortSlotReads(item);
    PartsJoin(item.name, 0);
    PaddingTrimmed(item.name, PartCount(item.name) * UNITS_PER_SLOT - |item.name|);
    assert Padded(item.name)[0 * UNITS_PER_SLOT..] == Padded(item.name);
    assert !item.deleted ==> [item.short[0]] + item.short[1..] == item.short;
    NonEmptyParts(item.name);
    assert LongName(PendingFrom(item, 0), ShortSlot(item)[..11], item.deleted) == item.name;
  }

  lemma LongIsShown(item: Item)
    requires ValidItem(item) && !item.noLfn
    ensures ShownName(item) == item.name
  {
  }

  lemma NonEmptyParts(name: Units)
    requires PartCount(name) > 0
    ensures PartsFrom(name, 0) != []
  {
  }

  lemma ItemParsed(item: Item, rest: seq<Byte>, offset: nat)
    requires ValidItem(item)
    ensures Parse(NOTHING, EntryBytes(item) + rest, offset) ==
            [Expected(item, offset + SlotCount(item) * SLOT)] + Parse(NOTHING, rest, offset + |EntryBytes(item)|)
  {
    hide LfnSlots, ShortSlot, Emit, PendingFrom, Parse, Expected, PartCount, SlotCount;
    var count := SlotCount(item);
    var slot := ShortSlot(item);
    Associate(LfnSlots(item, count), slot, rest);
    PartsRead(item, count, slot + rest, offset);
    StartsWithNothing(item);
    ShortEmits(item, offset + count * SLOT);
    SlotsLength(item, count);
    ShortParsed(item, rest, offset + count * SLOT);
  }

  /** The short slot ends the entry. */
  lemma ShortParsed(item: Item, rest: seq<Byte>, offset: nat)
    requires ValidItem(item)
    ensures Parse(PendingFrom(item, 0), ShortSlot(item) + rest, offset)
      == Emit(PendingFrom(item, 0), ShortSlot(item), offset) + Parse(NOTHING, rest, offset + SLOT)
  {
    var slot := ShortSlot(item);
    ShortSlotReads(item);
    NotEmptyShort(item);
    hide ShortSlot, Emit, PendingFrom, ValidItem;
    var data := slot + rest;
    assert data[..SLOT] == slot && data[SLOT..] == rest;
    assert slot[0] == slot[..11][0] && slot[11] != ATTR_LFN;
  }

  lemma NotEmptyShort(item: Item)
    requires ValidItem(item)
    ensures item.short[0] != 0 && item.short[0] != DELETED
  {
    if item.noLfn {
      ShortNameShown(Narrow(item.name), item.deleted);
    }
  }

  /** A short slot on its own. */
  lemma ShortOnlyEmits(item: Item, offset: nat)
    requires ValidItem(item) && item.noLfn
    ensures Emit(PendingFrom(item, 0), ShortSlot(item), offset) == [Expected(item, offset)]
  {
    StartsWithNothing(item);
    hide ShortSlot, DecodeShortName, EightDotThree, ShortName, ShownName, HasBit, FromLE, Emit, PendingFrom;
    ShortIsShown(item);
    ShortSlotReads(item);
    AttributeBits();
    var slot := ShortSlot(item);
    assert slot[0] == slot[..11][0];
    EmitPlain(slot, offset, ShownName(item), !item.deleted);
  }

  /** What a short slot with no long name before it yields. */
  lemma EmitPlain(slot: seq<Byte>, offset: nat, name: Units, certain: bool)
    requires |slot| == SLOT && !HasBit(slot[11], ATTR_VOLUME_ID) && name != [] && name[0] != 0x2E
    requires DecodeShortName(slot[..11], slot[0] == DELETED) == (name, certain)
    ensures Emit(NOTHING, slot, offset) == [DirEntry(
        name, certain, slot[0] == DELETED, HasBit(slot[11], ATTR_DIRECTORY), false,
        FromLE(slot[20..22]) * 0x1_0000 + FromLE(slot[26..28]), FromLE(slot[28..32]), offset)]
  {
    hide DecodeShortName, HasBit, FromLE, Checksum;
  }

  /** A short name is decoded to what is shown, which is no dot entry. */
  lemma ShortIsShown(item: Item)
    requires ValidItem(item) && item.noLfn
    ensures ShownAs(item, ShownName(item))
  {
    hide DecodeShortName, EightDotThree, ShortName;
    ShortNameShown(Narrow(item.name), item.deleted);
  }

  ghost predicate ShownAs(item: Item, name: Units) {
    && |item.short| == 11 && item.short[0] != DELETED && name != [] && name[0] != 0x2E
    && DecodeShortName([if item.deleted then DELETED else item.short[0]] + item.short[1..], item.deleted)
      == (name, !item.deleted)
  }

  lemma AttributeBits()
    ensures !HasBit(0x20, ATTR_VOLUME_ID) && !HasBit(0x10, ATTR_VOLUME_ID)
    ensures HasBit(0x10, ATTR_DIRECTORY) && !HasBit(0x20, ATTR_DIRECTORY)
  {
  }

  lemma StartsWithNothing(item: Item)
    ensures PendingFrom(item, SlotCount(item)) == NOTHING
  {
  }

  lemma {:induction false} SlotsLength(item: Item, i: nat)
    requires ValidItem(item) && i <= SlotCount(item)
    ensures |LfnSlots(item, i)| == i * SLOT
    decreases i
  {
    hide LfnSlot, PartOf, PartCount, ValidItem, Checksum;
    if i > 0 {
      SlotsLength(item, i - 1);
    }
  }

  predicate AllValid(items: seq<Item>) {
    forall k :: 0 <= k < |items| ==> ValidItem(items[k])
  }

  function DirectoryBytes(items: seq<Item>): seq<Byte>
    requires AllValid(items)
  {
    if items == [] then [] else EntryBytes(items[0]) + DirectoryBytes(items[1..])
  }

  function ExpectedAll(items: seq<Item>, offset: nat): (entries: seq<DirEntry>)
    requires AllValid(items)
    ensures |entries| == |items|
  {
    if items == [] then []
    else
      [Expected(items[0], offset + SlotCount(items[0]) * SLOT)] +
        ExpectedAll(items[1..], offset + |EntryBytes(items[0])|)
  }

  /** Nothing more to read: the data ends, or a slot starts with zero. */
  predicate Ends(tail: seq<Byte>) {
    |tail| < SLOT || tail[0] == 0
  }

  lemma NothingParsed(tail: seq<Byte>, offset: nat)
    requires Ends(tail)
    ensures Parse(NOTHING, tail, offset) == []
  {
  }

  /**
   * Parsing the encodings of any entries gives them back in order, deleted ones too, with only the certainty of their
   * names lost.
   */
  lemma {:induction false} DirectoryRoundTrip(items: seq<Item>, tail: seq<Byte>, offset: nat)
    requires AllValid(items) && Ends(tail)
    ensures Parse(NOTHING, DirectoryBytes(items) + tail, offset) == ExpectedAll(items, offset)
    decreases |items|
  {
    hide EntryBytes, ValidItem, Parse, Expected, PartCount;
    if items == [] {
      assert DirectoryBytes(items) + tail == tail;
      NothingParsed(tail, offset);
    } else {
      Associate(EntryBytes(items[0]), DirectoryBytes(items[1..]), tail);
      ItemParsed(items[0], DirectoryBytes(items[1..]) + tail, offset);
      DirectoryRoundTrip(items[1..], tail, offset + |EntryBytes(items[0])|);
    }
  }
}
