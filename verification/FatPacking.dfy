/**
 * How a file allocation table is stored: three bytes to two entries, two bytes, or four bytes of which the top four
 * bits are not part of the entry (crates/fs-fat/src/fat.rs:31-53), and how linked clusters are written into one
 * (crates/fixture-builder/src/fat.rs:221-324).
 */
module FatPacking {
  import opened Common
  import opened Arithmetic
  import opened FatChain

  /** The packed table; a cell's bits beyond its width are cut off. */
  function Packed(variant: FatVariant, cells: seq<nat>): seq<Byte> {
    if cells == [] then []
    else
      match variant
      case Fat12 =>
        if |cells| == 1 then [cells[0] % 256, cells[0] / 256 % 16]
        else TwoCells(cells[0], cells[1]) + Packed(variant, cells[2..])
      case Fat16 => [cells[0] % 256, cells[0] / 256 % 256] + Packed(variant, cells[1..])
      case Fat32 => FourBytes(cells[0]) + Packed(variant, cells[1..])
  }

  function TwoCells(even: nat, odd: nat): seq<Byte> {
    [even % 256, even / 256 % 16 + 16 * (odd % 16), odd / 16 % 256]
  }

  function FourBytes(cell: nat): seq<Byte> {
    [cell % 256, cell / 0x100 % 256, cell / 0x1_0000 % 256, cell / 0x100_0000 % 256]
  }

  /** The part of a cell that is its entry: 12, 16 or 28 bits. */
  function Value(variant: FatVariant, cell: nat): nat {
    match variant
    case Fat12 => cell % 0x1000
    case Fat16 => cell % 0x1_0000
    case Fat32 => cell % 0x1000_0000
  }

  // ---------- Reading back ----------

  function At(variant: FatVariant, raw: seq<Byte>, c: nat): Option<nat> {
    FatTable(variant, raw, 0).RawEntry(c)
  }

  lemma CountDoesNotMatter(table: FatTable, c: nat)
    ensures table.RawEntry(c) == At(table.variant, table.raw, c)
  {
  }

  lemma TwoLittle(x: Byte, y: Byte)
    ensures FromLE([x, y]) == x + 256 * (y as int)
  {
    assert [x, y][1..] == [y] && [y][1..] == [];
    assert FromLE([y]) == y;
  }

  lemma FourLittle(a: Byte, b: Byte, c: Byte, d: Byte)
    ensures FromLE([a, b, c, d]) == a + 256 * (b as int) + 0x1_0000 * (c + 256 * (d as int))
  {
    assert [a, b, c, d][1..] == [b, c, d] && [b, c, d][1..] == [c, d];
    TwoLittle(c, d);
  }

  /** The low digits of a number, in two steps. */
  lemma DigitsSplit(a: nat, m: nat, n: nat)
    requires m > 0 && n > 0
    ensures m * n > 0 && a % (m * n) == a % m + m * (a / m % n)
  {
    var q := a / m;
    assert a == m * q + a % m;
    var high, low := q / n, q % n;
    assert q == n * high + low;
    DigitsPlaced(m, n, high, low, a % m);
  }

  lemma DigitsPlaced(m: nat, n: nat, high: nat, middle: nat, low: nat)
    requires low < m && middle < n
    ensures m * n > 0 && (m * (n * high + middle) + low) % (m * n) == low + m * middle
  {
    ProductOrder(middle, n, m);
    assert middle * m == m * middle && n * m == m * n;
    assert m * (n * high) == (m * n) * high;
    assert m * (n * high + middle) == m * (n * high) + m * middle;
    DivisionUnique(m * (n * high + middle) + low, m * n, high, m * middle + low);
  }

  lemma FourDigits(cell: nat)
    ensures cell % 256 + 256 * (cell / 0x100 % 256)
      + 0x1_0000 * (cell / 0x1_0000 % 256 + 256 * (cell / 0x100_0000 % 256)) == cell % 0x1_0000_0000
  {
    DigitsSplit(cell, 256, 256);
    DigitsSplit(cell / 0x1_0000, 256, 256);
    DigitsSplit(cell, 0x1_0000, 0x1_0000);
  }

  lemma TwoCellsRead(even: nat, odd: nat, rest: seq<Byte>)
    ensures At(Fat12, TwoCells(even, odd) + rest, 0) == Some(even % 0x1000)
    ensures At(Fat12, TwoCells(even, odd) + rest, 1) == Some(odd % 0x1000)
  {
    DigitsSplit(even, 256, 16);
    DigitsSplit(odd, 16, 256);
    var x, y, z := even % 256, even / 256 % 16 + 16 * (odd % 16), odd / 16 % 256;
    Read12([x, y, z] + rest, x, y, z);
    LowHalf(even % 0x1000, odd % 16);
    HighHalf(even / 256 % 16, odd % 0x1000);
  }

  lemma LowHalf(low: nat, over: nat)
    requires low < 0x1000
    ensures (low + 0x1000 * over) % 0x1000 == low
  {
  }

  lemma HighHalf(under: nat, high: nat)
    requires under < 16
    ensures (under + 16 * high) / 16 == high
  {
  }

  lemma Read12(raw: seq<Byte>, x: Byte, y: Byte, z: Byte)
    requires |raw| >= 3 && raw[0] == x && raw[1] == y && raw[2] == z
    ensures At(Fat12, raw, 0) == Some((x + 256 * (y as int)) % 0x1000)
    ensures At(Fat12, raw, 1) == Some((y + 256 * (z as int)) / 16)
  {
    hide FromLE;
    assert raw[0..2] == [x, y] && raw[1..3] == [y, z];
    TwoLittle(x, y);
    TwoLittle(y, z);
  }

  lemma LastCellRead(cell: nat, rest: seq<Byte>)
    ensures At(Fat12, [cell % 256, cell / 256 % 16] + rest, 0) == Some(cell % 0x1000)
  {
    hide FromLE;
    var x, y := cell % 256, cell / 256 % 16;
    assert ([x, y] + rest)[0..2] == [x, y];
    TwoLittle(x, y);
    DigitsSplit(cell, 256, 16);
    LowHalf(cell % 0x1000, 0);
  }

  lemma TwoBytesRead(cell: nat, rest: seq<Byte>)
    ensures At(Fat16, [cell % 256, cell / 256 % 256] + rest, 0) == Some(cell % 0x1_0000)
  {
    hide FromLE;
    var x, y := cell % 256, cell / 256 % 256;
    assert ([x, y] + rest)[0..2] == [x, y];
    TwoLittle(x, y);
    DigitsSplit(cell, 256, 256);
  }

  lemma FourBytesRead(cell: nat, rest: seq<Byte>)
    ensures At(Fat32, FourBytes(cell) + rest, 0) == Some(cell % 0x1000_0000)
  {
    hide FromLE;
    var s := FourBytes(cell);
    assert (s + rest)[0..4] == [s[0], s[1], s[2], s[3]];
    FourLittle(s[0], s[1], s[2], s[3]);
    FourDigits(cell);
    TopCut(cell);
  }

  lemma TopCut(cell: nat)
    ensures cell % 0x1_0000_0000 % 0x1000_0000 == cell % 0x1000_0000
  {
    DigitsSplit(cell, 0x1000_0000, 16);
  }

  /** Entries move with their bytes. */
  lemma Shift12(head: seq<Byte>, rest: seq<Byte>, c: nat)
    requires |head| == 3 && c >= 2
    ensures At(Fat12, head + rest, c) == At(Fat12, rest, c - 2)
  {
    hide FromLE;
    var off := c - 2 + (c - 2) / 2;
    assert c + c / 2 == off + 3;
    if off + 1 < |rest| {
      assert (head + rest)[off + 3..off + 5] == rest[off..off + 2];
    }
  }

  lemma Shift16(head: seq<Byte>, rest: seq<Byte>, c: nat)
    requires |head| == 2 && c >= 1
    ensures At(Fat16, head + rest, c) == At(Fat16, rest, c - 1)
  {
    hide FromLE;
    if 2 * c - 1 < |rest| {
      assert (head + rest)[2 * c..2 * c + 2] == rest[2 * c - 2..2 * c];
    }
  }

  lemma Shift32(head: seq<Byte>, rest: seq<Byte>, c: nat)
    requires |head| == 4 && c >= 1
    ensures At(Fat32, head + rest, c) == At(Fat32, rest, c - 1)
  {
    hide FromLE;
    if 4 * c <= |rest| {
      assert (head + rest)[4 * c..4 * c + 4] == rest[4 * c - 4..4 * c];
    }
  }

  lemma {:induction false} PackedAt(variant: FatVariant, cells: seq<nat>, rest: seq<Byte>, c: nat)
    requires c < |cells|
    ensures At(variant, Packed(variant, cells) + rest, c) == Some(Value(variant, cells[c]))
    decreases |cells|
  {
    hide At, TwoCells, FourBytes;
    match variant
    case Fat12 =>
      if |cells| == 1 {
        LastCellRead(cells[0], rest);
      } else {
        var head, more := TwoCells(cells[0], cells[1]), Packed(variant, cells[2..]);
        Associate(head, more, rest);
        TwoCellsRead(cells[0], cells[1], more + rest);
        if c >= 2 {
          ThreeBytes(cells[0], cells[1]);
          PackedAt(variant, cells[2..], rest, c - 2);
          Shift12(head, more + rest, c);
        }
      }
    case Fat16 =>
      var head, more := [cells[0] % 256, cells[0] / 256 % 256], Packed(variant, cells[1..]);
      Associate(head, more, rest);
      TwoBytesRead(cells[0], more + rest);
      if c >= 1 {
        PackedAt(variant, cells[1..], rest, c - 1);
        Shift16(head, more + rest, c);
      }
    case Fat32 =>
      var head, more := FourBytes(cells[0]), Packed(variant, cells[1..]);
      Associate(head, more, rest);
      FourBytesRead(cells[0], more + rest);
      if c >= 1 {
        FourBytesLong(cells[0]);
        PackedAt(variant, cells[1..], rest, c - 1);
        Shift32(head, more + rest, c);
      }
  }

  lemma ThreeBytes(even: nat, odd: nat)
    ensures |TwoCells(even, odd)| == 3
  {
  }

  lemma FourBytesLong(cell: nat)
    ensures |FourBytes(cell)| == 4
  {
  }

  lemma {:induction false} PackedLength(variant: FatVariant, cells: seq<nat>)
    ensures |Packed(variant, cells)| ==
      match variant { case Fat12 => (3 * |cells| + 1) / 2 case Fat16 => 2 * |cells| case Fat32 => 4 * |cells| }
    decreases |cells|
  {
    if cells != [] {
      match variant
      case Fat12 =>
        if |cells| > 1 {
          PackedLength(variant, cells[2..]);
        }
      case Fat16 => PackedLength(variant, cells[1..]);
      case Fat32 => PackedLength(variant, cells[1..]);
    }
  }

  /** Every cell of a packed table reads back as its entry, whatever follows it, and there are no others. */
  lemma PackedReads(variant: FatVariant, cells: seq<nat>, rest: seq<Byte>, clusterCount: nat, c: nat)
    ensures var table := FatTable(variant, Packed(variant, cells) + rest, clusterCount);
      && (c < |cells| ==> table.RawEntry(c) == Some(Value(variant, cells[c])))
      && (c >= |cells| && rest == [] ==> table.RawEntry(c) == None)
  {
    var table := FatTable(variant, Packed(variant, cells) + rest, clusterCount);
    if c < |cells| {
      CountDoesNotMatter(table, c);
      hide At;
      PackedAt(variant, cells, rest, c);
    } else if rest == [] {
      PackedLength(variant, cells);
      assert table.raw == Packed(variant, cells);
    }
  }

  // ---------- What the entries mean ----------

  /** The specification's values: zero is free, one is reserved, the top nine are a bad mark and eight end marks. */
  function Meaning(variant: FatVariant, v: nat): FatEntry {
    var top := match variant { case Fat12 => 0xFFF case Fat16 => 0xFFFF case Fat32 => 0xFFF_FFFF };
    if v == 0 then Free
    else if v == 1 then Reserved
    else if v < top - 8 then Next(v)
    else if v == top - 8 then Bad
    else EndOfChain
  }

  lemma PackedMeans(variant: FatVariant, cells: seq<nat>, rest: seq<Byte>, clusterCount: nat, c: nat)
    requires c < |cells| && c < clusterCount + 2
    ensures FatTable(variant, Packed(variant, cells) + rest, clusterCount).EntryOf(c)
      == Some(Meaning(variant, Value(variant, cells[c])))
  {
    hide FatTable.RawEntry, Packed;
    PackedReads(variant, cells, rest, clusterCount, c);
  }

  /** Each cluster of the list names the next; the last holds any of the end marks. */
  ghost predicate Names(variant: FatVariant, cells: seq<nat>, list: seq<nat>, clusterCount: nat) {
    && list != [] && |cells| >= clusterCount + 2
    && (forall i :: 0 <= i < |list| ==> 2 <= list[i] < clusterCount + 2)
    && (forall i :: 0 < i < |list| ==> Meaning(variant, Value(variant, cells[list[i - 1]])) == Next(list[i]))
    && Meaning(variant, Value(variant, cells[list[|list| - 1]])) == EndOfChain
  }

  /** A packed list of clusters is a path to the end; `Chain` gives exactly this list, complete, for it. */
  lemma PackedListEnds(variant: FatVariant, cells: seq<nat>, rest: seq<Byte>, list: seq<nat>, clusterCount: nat)
    requires Names(variant, cells, list, clusterCount)
    ensures EndingPath(FatTable(variant, Packed(variant, cells) + rest, clusterCount), list, list[0])
  {
    hide FatTable.EntryOf, Meaning, Value, Packed;
    forall i | 0 <= i < |list|
      ensures FatTable(variant, Packed(variant, cells) + rest, clusterCount).EntryOf(list[i])
        == Some(Meaning(variant, Value(variant, cells[list[i]])))
    {
      PackedMeans(variant, cells, rest, clusterCount, list[i]);
    }
  }

  // ---------- Writing a table ----------

  /** Every cluster of the list holds the next one, and the last the end mark. */
  ghost predicate LinkedIn(cells: seq<nat>, list: seq<nat>, endMark: nat) {
    LinkedBefore(cells, list, |list|, endMark)
  }

  ghost predicate LinkedBefore(cells: seq<nat>, list: seq<nat>, n: nat, endMark: nat) {
    forall i :: 0 <= i < n && i < |list| ==>
      list[i] < |cells| && cells[list[i]] == if i + 1 < |list| then list[i + 1] else endMark
  }

  lemma LinkedAt(cells: seq<nat>, list: seq<nat>, i: nat, endMark: nat)
    requires LinkedIn(cells, list, endMark) && i < |list|
    ensures list[i] < |cells| && cells[list[i]] == if i + 1 < |list| then list[i + 1] else endMark
  {
    var cluster := list[i];
  }

  /** Writes one file's clusters into the table; a cluster listed twice keeps what was written last. */
  method LinkClusters(fat: array<nat>, list: seq<nat>, endMark: nat)
    requires forall c :: c in list ==> c < fat.Length
    modifies fat
    ensures forall c :: 0 <= c < fat.Length && c !in list ==> fat[c] == old(fat[c])
    ensures Distinct(list) ==> LinkedIn(fat[..], list, endMark)
  {
    for i := 0 to |list|
      invariant forall c :: 0 <= c < fat.Length && c !in list[..i] ==> fat[c] == old(fat[c])
      invariant Distinct(list) ==> LinkedBefore(fat[..], list, i, endMark)
    {
      assert list[i] in list && list[i] in list[..i + 1];
      assert forall c :: c in list[..i] ==> c in list[..i + 1];
      fat[list[i]] := if i + 1 < |list| then list[i + 1] else endMark;
    }
    assert list[..|list|] == list;
  }

  function CellBytes(variant: FatVariant, cell: nat): (bytes: seq<Byte>)
    requires !variant.Fat12?
    ensures |bytes| == CellSize(variant)
  {
    if variant.Fat16? then [cell % 256, cell / 256 % 256] else FourBytes(cell)
  }

  function CellSize(variant: FatVariant): nat {
    if variant.Fat16? then 2 else 4
  }

  lemma {:induction false} PackedSnoc(variant: FatVariant, cells: seq<nat>, last: nat)
    requires !variant.Fat12?
    ensures Packed(variant, cells + [last]) == Packed(variant, cells) + CellBytes(variant, last)
    decreases |cells|
  {
    hide FourBytes;
    var all := cells + [last];
    if cells == [] {
      assert all[1..] == [];
    } else {
      assert all[1..] == cells[1..] + [last];
      PackedSnoc(variant, cells[1..], last);
      var head := CellBytes(variant, cells[0]);
      assert head + (Packed(variant, cells[1..]) + CellBytes(variant, last))
        == head + Packed(variant, cells[1..]) + CellBytes(variant, last);
    }
  }

  lemma PackedNothing(variant: FatVariant)
    ensures Packed(variant, []) == []
  {
  }

  /** The last loop of the image builder, for the two variants it makes. */
  method WriteTable(variant: FatVariant, cells: seq<nat>, table: array<Byte>)
    requires !variant.Fat12? && |cells| * CellSize(variant) <= table.Length
    modifies table
    ensures table[..] == Packed(variant, cells) + old(table[|cells| * CellSize(variant)..])
  {
    hide CellBytes, CellSize, Packed;
    ghost var rest := table[|cells| * CellSize(variant)..];
    var at := 0;
    PackedNothing(variant);
    for i := 0 to |cells|
      invariant at == i * CellSize(variant)
      invariant table[..at] == Packed(variant, cells[..i])
      invariant at <= |cells| * CellSize(variant)
      invariant table[|cells| * CellSize(variant)..] == rest
    {
      var bytes := CellBytes(variant, cells[i]);
      ProductOrder(i, |cells|, CellSize(variant));
      Distribute(i, 1, CellSize(variant));
      Put(table, at, bytes);
      PackedSnoc(variant, cells[..i], cells[i]);
      assert cells[..i] + [cells[i]] == cells[..i + 1];
      at := at + |bytes|;
    }
    assert cells[..|cells|] == cells;
    assert table[..] == table[..at] + table[at..];
  }

  method Put(table: array<Byte>, at: nat, bytes: seq<Byte>)
    requires at + |bytes| <= table.Length
    modifies table
    ensures table[..at + |bytes|] == old(table[..at]) + bytes
    ensures forall k :: at + |bytes| <= k <= table.Length ==> table[k..] == old(table[k..])
  {
    forall k | 0 <= k < |bytes| {
      table[at + k] := bytes[k];
    }
  }

  /** Clusters linked in a table of any variant and packed are a path to the end that `Chain` follows whole. */
  lemma LinkedListEnds(variant: FatVariant, cells: seq<nat>, rest: seq<Byte>, list: seq<nat>, endMark: nat,
                       clusterCount: nat)
    requires list != [] && LinkedIn(cells, list, endMark) && |cells| >= clusterCount + 2
    requires forall i :: 0 <= i < |list| ==> 2 <= list[i] < clusterCount + 2
    requires clusterCount + 1 < match variant { case Fat12 => 0xFF7 case Fat16 => 0xFFF7 case Fat32 => 0xFFF_FFF7 }
    requires match variant {
      case Fat12 => 0xFF8 <= endMark % 0x1000
      case Fat16 => 0xFFF8 <= endMark % 0x1_0000
      case Fat32 => 0xFFF_FFF8 <= endMark % 0x1000_0000 }
    ensures EndingPath(FatTable(variant, Packed(variant, cells) + rest, clusterCount), list, list[0])
  {
    forall i | 0 < i < |list|
      ensures Meaning(variant, Value(variant, cells[list[i - 1]])) == Next(list[i])
    {
      LinkedAt(cells, list, i - 1, endMark);
    }
    LinkedAt(cells, list, |list| - 1, endMark);
    hide Meaning, Value, Packed;
    PackedListEnds(variant, cells, rest, list, clusterCount);
  }
}
