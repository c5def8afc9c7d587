/** What any runlist's bytes mean (crates/fs-ntfs/src/runs.rs): holes, signed moves, every field size. */
module RunlistFields {
  import opened Common
  import opened Runlist

  /** The two fields of one element as they are stored; an empty offset field is a hole. */
  datatype Field = Field(length: seq<Byte>, offset: seq<Byte>)

  predicate WellSized(f: Field) {
    1 <= |f.length| <= 8 && |f.offset| <= 8
  }

  predicate AllWellSized(fields: seq<Field>) {
    forall i :: 0 <= i < |fields| ==> WellSized(fields[i])
  }

  function FieldBytes(f: Field): (bytes: seq<Byte>)
    requires WellSized(f)
    ensures |bytes| == 1 + |f.length| + |f.offset|
  {
    [(16 * |f.offset| + |f.length|) as Byte] + f.length + f.offset
  }

  function FieldsBytes(fields: seq<Field>): seq<Byte>
    requires AllWellSized(fields)
  {
    if fields == [] then [] else FieldBytes(fields[0]) + FieldsBytes(fields[1..])
  }

  ghost predicate Spells(buf: seq<Byte>, fields: seq<Field>, trailing: seq<Byte>) {
    AllWellSized(fields) && buf == FieldsBytes(fields) + ([0] + trailing)
  }

  /** How far the cluster number has moved: the sum of the offset fields; holes move nothing. */
  function Moved(fields: seq<Field>): int {
    if fields == [] then 0
    else
      var last := fields[|fields| - 1];
      Moved(fields[..|fields| - 1]) + if last.offset == [] then 0 else SignExtend(last.offset)
  }

  /** Element `i`: its own count, and the cluster number all moves up to its own add up to, cut to 64 bits. */
  function ElementAt(fields: seq<Field>, i: nat): RunElement
    requires i < |fields|
  {
    RunElement(FromLE(fields[i].length),
               if fields[i].offset == [] then None else Some(Moved(fields[..i + 1]) % U64_LIMIT))
  }

  function Meant(fields: seq<Field>): (runs: seq<RunElement>)
    ensures |runs| == |fields|
  {
    seq(|fields|, i requires 0 <= i < |fields| => ElementAt(fields, i))
  }

  /** No move leads below cluster zero, and what is meant lies in the volume. */
  ghost predicate Sound(fields: seq<Field>, totalClusters: nat) {
    && (forall i :: 0 <= i < |fields| && fields[i].offset != [] ==> Moved(fields[..i + 1]) >= 0)
    && InVolume(Meant(fields), totalClusters)
  }

  // ---------- One element ----------

  function Move(f: Field): int {
    if f.offset == [] then 0 else SignExtend(f.offset)
  }

  function Element(f: Field, lcn: int): RunElement {
    RunElement(FromLE(f.length), if f.offset == [] then None else Some((lcn + Move(f)) % U64_LIMIT))
  }

  predicate ElementSound(f: Field, lcn: int, total: nat, totalClusters: nat) {
    var count := FromLE(f.length);
    && count > 0 && total + count <= totalClusters
    && (f.offset != [] ==> lcn + Move(f) >= 0 && (lcn + Move(f)) % U64_LIMIT + count <= totalClusters)
  }

  lemma FieldSlices(f: Field, rest: seq<Byte>)
    requires WellSized(f)
    ensures var buf := FieldBytes(f) + rest;
      && |FieldBytes(f)| == 1 + |f.length| + |f.offset|
      && buf[0] != 0 && buf[0] % 16 == |f.length| && buf[0] / 16 == |f.offset|
      && buf[1..1 + |f.length|] == f.length
      && buf[1 + |f.length|..1 + |f.length| + |f.offset|] == f.offset
      && buf[|FieldBytes(f)|..] == rest
  {
  }

  /** The decoder on one spelled element. */
  lemma ElementDecodes(f: Field, rest: seq<Byte>, lcn: int, total: nat, totalClusters: U64)
    requires WellSized(f)
    ensures FieldBytes(f)[0] != 0
    ensures var r := DecodeElement(FieldBytes(f) + rest, lcn, total, totalClusters);
      if ElementSound(f, lcn, total, totalClusters) then r == Ok(Step(Element(f, lcn), |FieldBytes(f)|, lcn + Move(f)))
      else r.Err?
  {
    FieldSlices(f, rest);
    hide FieldBytes, FromLE, SignExtend;
  }

  /** An element the decoder accepts is a spelled one. */
  lemma ElementSpelled(buf: seq<Byte>, lcn: int, total: nat, totalClusters: nat) returns (f: Field, rest: seq<Byte>)
    requires buf != [] && buf[0] != 0 && DecodeElement(buf, lcn, total, totalClusters).Ok?
    ensures WellSized(f) && buf == FieldBytes(f) + rest
    ensures |FieldBytes(f)| == DecodeElement(buf, lcn, total, totalClusters).value.size
  {
    hide FromLE, SignExtend;
    var lenSize, offSize := buf[0] % 16, buf[0] / 16;
    f := Field(buf[1..1 + lenSize], buf[1 + lenSize..1 + lenSize + offSize]);
    rest := buf[1 + lenSize + offSize..];
    assert buf == [buf[0]] + f.length + f.offset + rest;
  }

  // ---------- The whole list, from the front ----------

  function MeantFrom(lcn: int, fields: seq<Field>): (runs: seq<RunElement>)
    ensures |runs| == |fields|
    decreases |fields|
  {
    if fields == [] then [] else [Element(fields[0], lcn)] + MeantFrom(lcn + Move(fields[0]), fields[1..])
  }

  predicate SoundFrom(lcn: int, fields: seq<Field>, total: nat, emitted: nat, totalClusters: nat)
    decreases |fields|
  {
    if fields == [] then true
    else
      && ElementSound(fields[0], lcn, total, totalClusters) && emitted < MAX_RUNS
      && SoundFrom(lcn + Move(fields[0]), fields[1..], total + FromLE(fields[0].length), emitted + 1, totalClusters)
  }

  lemma {:induction false} SpelledDecodes(fields: seq<Field>, trailing: seq<Byte>, lcn: int, total: nat, emitted: nat,
                                          totalClusters: U64)
    requires AllWellSized(fields)
    ensures var r := DecodeRest(FieldsBytes(fields) + ([0] + trailing), lcn, total, emitted, totalClusters);
      if SoundFrom(lcn, fields, total, emitted, totalClusters) then r == Ok(MeantFrom(lcn, fields)) else r.Err?
    decreases |fields|
  {
    hide DecodeElement, FieldBytes, ElementSound, Element, Move;
    if fields == [] {
      assert FieldsBytes(fields) + ([0] + trailing) == [0] + trailing;
    } else {
      var head, rest := FieldBytes(fields[0]), FieldsBytes(fields[1..]) + ([0] + trailing);
      assert FieldsBytes(fields) + ([0] + trailing) == head + rest;
      assert (head + rest)[|head|..] == rest && (head + rest)[0] == head[0];
      ElementDecodes(fields[0], rest, lcn, total, totalClusters);
      CountOfElement(fields[0], lcn);
      if ElementSound(fields[0], lcn, total, totalClusters) {
        SpelledDecodes(fields[1..], trailing, lcn + Move(fields[0]), total + FromLE(fields[0].length), emitted + 1,
                       totalClusters);
      }
    }
  }

  lemma CountOfElement(f: Field, lcn: int)
    ensures Element(f, lcn).clusterCount == FromLE(f.length)
  {
  }

  /** Whatever is accepted is spelled. */
  lemma {:induction false} DecodedIsSpelled(buf: seq<Byte>, lcn: int, total: nat, emitted: nat, totalClusters: nat)
    returns (fields: seq<Field>, trailing: seq<Byte>)
    requires DecodeRest(buf, lcn, total, emitted, totalClusters).Ok?
    ensures Spells(buf, fields, trailing)
    decreases |buf|
  {
    hide DecodeElement, FieldBytes;
    if buf[0] == 0 {
      fields, trailing := [], buf[1..];
    } else {
      var step := DecodeElement(buf, lcn, total, totalClusters).value;
      var f, rest := ElementSpelled(buf, lcn, total, totalClusters);
      assert buf[step.size..] == rest;
      var more;
      more, trailing := DecodedIsSpelled(rest, step.lcn, total + step.run.clusterCount, emitted + 1, totalClusters);
      fields := [f] + more;
      assert fields[1..] == more;
      assert FieldBytes(f) + (FieldsBytes(more) + ([0] + trailing))
        == FieldBytes(f) + FieldsBytes(more) + ([0] + trailing);
    }
  }

  // ---------- The same, said of sums ----------

  lemma {:induction false} MovedFront(f: Field, rest: seq<Field>)
    ensures Moved([f] + rest) == Move(f) + Moved(rest)
    decreases |rest|
  {
    var all := [f] + rest;
    if rest == [] {
      assert all[..0] == [];
    } else {
      assert all[..|all| - 1] == [f] + rest[..|rest| - 1];
      MovedFront(f, rest[..|rest| - 1]);
    }
  }

  lemma {:induction false} MeantFromAt(lcn: int, fields: seq<Field>, i: nat)
    requires i < |fields|
    ensures MeantFrom(lcn, fields)[i] ==
      RunElement(FromLE(fields[i].length),
                 if fields[i].offset == [] then None else Some((lcn + Moved(fields[..i + 1])) % U64_LIMIT))
    decreases |fields|
  {
    hide SignExtend, FromLE, Moved;
    assert fields[..i + 1] == [fields[0]] + fields[1..i + 1];
    MovedFront(fields[0], fields[1..i + 1]);
    if i > 0 {
      MeantFromAt(lcn + Move(fields[0]), fields[1..], i - 1);
      assert fields[1..][..i] == fields[1..i + 1];
    } else {
      assert fields[1..1] == [];
      NothingMoved();
    }
  }

  lemma NothingMoved()
    ensures Moved([]) == 0
  {
  }

  lemma MeantIsMeant(fields: seq<Field>)
    ensures MeantFrom(0, fields) == Meant(fields)
  {
    hide Moved, FromLE;
    forall i | 0 <= i < |fields|
      ensures MeantFrom(0, fields)[i] == ElementAt(fields, i)
    {
      MeantFromAt(0, fields, i);
    }
  }

  ghost predicate MovesUp(lcn: int, fields: seq<Field>) {
    forall i :: 0 <= i < |fields| && fields[i].offset != [] ==> lcn + Moved(fields[..i + 1]) >= 0
  }

  ghost predicate Placed(runs: seq<RunElement>, totalClusters: nat) {
    forall r :: r in runs ==> r.clusterCount > 0 && (r.lcn.Some? ==> r.lcn.value + r.clusterCount <= totalClusters)
  }

  lemma MovesUpFront(lcn: int, fields: seq<Field>)
    requires fields != []
    ensures MovesUp(lcn, fields) <==>
      (fields[0].offset != [] ==> lcn + Move(fields[0]) >= 0) && MovesUp(lcn + Move(fields[0]), fields[1..])
  {
    var rest := fields[1..];
    forall i | 0 <= i < |fields|
      ensures Moved(fields[..i + 1]) == Move(fields[0]) + Moved(rest[..i])
    {
      assert fields[..i + 1] == [fields[0]] + rest[..i];
      MovedFront(fields[0], rest[..i]);
    }
    NothingMoved();
    hide Moved, Move;
    assert rest[..0] == [];
    if MovesUp(lcn, fields) {
      forall i | 0 <= i < |rest| && rest[i].offset != []
        ensures lcn + Move(fields[0]) + Moved(rest[..i + 1]) >= 0
      {
        assert fields[i + 1] == rest[i];
      }
    }
  }

  lemma {:induction false} SoundFromMeans(lcn: int, fields: seq<Field>, total: nat, emitted: nat, totalClusters: nat)
    requires total <= totalClusters && emitted <= MAX_RUNS
    ensures SoundFrom(lcn, fields, total, emitted, totalClusters) <==>
      && MovesUp(lcn, fields) && Placed(MeantFrom(lcn, fields), totalClusters)
      && total + TotalClusters(MeantFrom(lcn, fields)) <= totalClusters && emitted + |fields| <= MAX_RUNS
    decreases |fields|
  {
    hide Placed, MovesUp, Moved, FromLE, SignExtend;
    if fields == [] {
      NothingWrong(lcn, fields, totalClusters);
    } else {
      var first, rest := Element(fields[0], lcn), MeantFrom(lcn + Move(fields[0]), fields[1..]);
      MovesUpFront(lcn, fields);
      PlacedFront(first, rest, totalClusters);
      if total + FromLE(fields[0].length) <= totalClusters && emitted < MAX_RUNS {
        SoundFromMeans(lcn + Move(fields[0]), fields[1..], total + FromLE(fields[0].length), emitted + 1,
                       totalClusters);
      }
    }
  }

  lemma NothingWrong(lcn: int, fields: seq<Field>, totalClusters: nat)
    requires fields == []
    ensures MovesUp(lcn, fields) && Placed([], totalClusters)
  {
  }

  lemma PlacedFront(first: RunElement, rest: seq<RunElement>, totalClusters: nat)
    ensures Placed([first] + rest, totalClusters) <==>
      first.clusterCount > 0 && (first.lcn.Some? ==> first.lcn.value + first.clusterCount <= totalClusters)
      && Placed(rest, totalClusters)
    ensures TotalClusters([first] + rest) == first.clusterCount + TotalClusters(rest)
  {
    assert ([first] + rest)[1..] == rest;
    assert first in [first] + rest;
  }

  /** Decoding a spelled list, of any field sizes and with any holes: what is meant, exactly when it is sound. */
  lemma SpelledRoundTrip(fields: seq<Field>, trailing: seq<Byte>, totalClusters: U64)
    requires AllWellSized(fields)
    ensures var r := Decoded(FieldsBytes(fields) + ([0] + trailing), totalClusters);
      if Sound(fields, totalClusters) then r == Ok(Meant(fields)) else r.Err?
  {
    SpelledDecodes(fields, trailing, 0, 0, 0, totalClusters);
    SoundFromMeans(0, fields, 0, 0, totalClusters);
    MeantIsMeant(fields);
    hide Meant, Moved, DecodeRest, SoundFrom, MeantFrom;
  }

  /** Every buffer: it decodes to these runs if and only if it spells sound fields that mean them. */
  lemma DecodesWhatIsSpelled(buf: seq<Byte>, totalClusters: U64, runs: seq<RunElement>)
    ensures Decoded(buf, totalClusters) == Ok(runs) <==>
      exists fields, trailing :: Spells(buf, fields, trailing) && Sound(fields, totalClusters) && Meant(fields) == runs
  {
    hide Meant, Sound, DecodeRest, FieldsBytes;
    if Decoded(buf, totalClusters) == Ok(runs) {
      var fields, trailing := DecodedIsSpelled(buf, 0, 0, 0, totalClusters);
      SpelledRoundTrip(fields, trailing, totalClusters);
    }
    if fields, trailing :| Spells(buf, fields, trailing) && Sound(fields, totalClusters) && Meant(fields) == runs {
      SpelledRoundTrip(fields, trailing, totalClusters);
    }
  }

  // ---------- Values written in fields of any size ----------

  /** A count and a move, or a hole, with the sizes to write them in. */
  datatype Item = Item(count: nat, delta: Option<int>, lenSize: nat, offSize: nat)

  predicate Fits(item: Item) {
    && 1 <= item.lenSize <= 8 && item.count < Pow256(item.lenSize)
    && (item.delta.None? ==> item.offSize == 0)
    && (item.delta.Some? ==> 1 <= item.offSize <= 8 && FitsSigned(item.delta.value, item.offSize))
  }

  predicate AllFit(items: seq<Item>) {
    forall i :: 0 <= i < |items| ==> Fits(items[i])
  }

  function FieldOf(item: Item): (f: Field)
    requires Fits(item)
    ensures WellSized(f)
  {
    Field(ToLE(item.count, item.lenSize), if item.delta.None? then [] else ToLE(item.delta.value, item.offSize))
  }

  function FieldsOf(items: seq<Item>): (fields: seq<Field>)
    requires AllFit(items)
    ensures |fields| == |items| && AllWellSized(fields)
  {
    seq(|items|, i requires 0 <= i < |items| => FieldOf(items[i]))
  }

  /** The sum of the moves of the elements that are no holes. */
  function SumOfDeltas(items: seq<Item>): int {
    if items == [] then 0
    else
      var last := items[|items| - 1];
      SumOfDeltas(items[..|items| - 1]) + if last.delta.None? then 0 else last.delta.value
  }

  function ItemAt(items: seq<Item>, i: nat): RunElement
    requires i < |items|
  {
    RunElement(items[i].count, if items[i].delta.None? then None else Some(SumOfDeltas(items[..i + 1]) % U64_LIMIT))
  }

  function ItemsMeant(items: seq<Item>): (runs: seq<RunElement>)
    ensures |runs| == |items|
  {
    seq(|items|, i requires 0 <= i < |items| => ItemAt(items, i))
  }

  lemma FieldReads(item: Item)
    requires Fits(item)
    ensures FromLE(FieldOf(item).length) == item.count
    ensures FieldOf(item).offset == [] <==> item.delta.None?
    ensures item.delta.Some? ==> SignExtend(FieldOf(item).offset) == item.delta.value
  {
    hide ToLE, FromLE, SignExtend, Pow256, FitsSigned;
    FromToLE(item.count, item.lenSize);
    if item.delta.Some? {
      SignExtendToLE(item.delta.value, item.offSize);
    }
  }

  lemma {:induction false} MovedIsSum(items: seq<Item>)
    requires AllFit(items)
    ensures Moved(FieldsOf(items)) == SumOfDeltas(items)
  {
    hide Fits, FieldOf, SignExtend;
    if items != [] {
      var rest, last := items[..|items| - 1], items[|items| - 1];
      MovedIsSum(rest);
      FieldReads(last);
      assert FieldsOf(items)[..|items| - 1] == FieldsOf(rest);
    }
  }

  lemma ItemsMean(items: seq<Item>)
    requires AllFit(items)
    ensures Meant(FieldsOf(items)) == ItemsMeant(items)
    ensures forall i :: 0 <= i < |items| ==>
      && (FieldsOf(items)[i].offset == [] <==> items[i].delta.None?)
      && Moved(FieldsOf(items)[..i + 1]) == SumOfDeltas(items[..i + 1])
  {
    hide Fits, FieldOf, Moved, SumOfDeltas, FromLE;
    forall i | 0 <= i < |items|
      ensures Moved(FieldsOf(items)[..i + 1]) == SumOfDeltas(items[..i + 1])
      ensures ElementAt(FieldsOf(items), i) == ItemAt(items, i)
      ensures FieldsOf(items)[i].offset == [] <==> items[i].delta.None?
    {
      assert FieldsOf(items)[..i + 1] == FieldsOf(items[..i + 1]);
      MovedIsSum(items[..i + 1]);
      FieldReads(items[i]);
    }
  }

  /**
   * Any counts and moves, with holes anywhere, each written in any size that holds it, minimal or not: decoding gives
   * the counts back, and for each element that is no hole the sum of the moves so far; or it fails, exactly when one of
   * those sums is negative or the elements do not lie in the volume.
   */
  lemma AnySizesRoundTrip(items: seq<Item>, trailing: seq<Byte>, totalClusters: U64)
    requires AllFit(items)
    ensures var r := Decoded(FieldsBytes(FieldsOf(items)) + ([0] + trailing), totalClusters);
      if NoneBelowZero(items) && InVolume(ItemsMeant(items), totalClusters) then r == Ok(ItemsMeant(items)) else r.Err?
  {
    SpelledRoundTrip(FieldsOf(items), trailing, totalClusters);
    ItemsMean(items);
    hide Meant, ItemsMeant, Moved, SumOfDeltas, DecodeRest, FieldsBytes, FieldsOf, InVolume;
  }

  ghost predicate NoneBelowZero(items: seq<Item>) {
    forall i :: 0 <= i < |items| && items[i].delta.Some? ==> SumOfDeltas(items[..i + 1]) >= 0
  }

  /** On volumes of at most 2^63 clusters nothing is cut off: an accepted element is at the sum itself. */
  lemma {:induction false} NoWrap(fields: seq<Field>, totalClusters: nat, i: nat)
    requires AllWellSized(fields) && Sound(fields, totalClusters) && totalClusters <= LCN_LIMIT
    requires i < |fields|
    ensures 0 <= Moved(fields[..i + 1]) < LCN_LIMIT
    ensures fields[i].offset != [] ==> Meant(fields)[i].lcn == Some(Moved(fields[..i + 1]))
  {
    hide Sound, SignExtend, Moved, Meant, ElementAt;
    if i > 0 {
      NoWrap(fields, totalClusters, i - 1);
    } else {
      assert fields[..0] == [];
      NothingMoved();
    }
    MovedBy(fields, i);
    if fields[i].offset != [] {
      MoveBound(fields[i].offset);
      SoundElement(fields, totalClusters, i);
    }
  }

  lemma MovedBy(fields: seq<Field>, i: nat)
    requires i < |fields|
    ensures Moved(fields[..i + 1]) ==
      Moved(fields[..i]) + if fields[i].offset == [] then 0 else SignExtend(fields[i].offset)
  {
    hide SignExtend;
    assert fields[..i + 1][..i] == fields[..i];
  }

  lemma SoundElement(fields: seq<Field>, totalClusters: nat, i: nat)
    requires Sound(fields, totalClusters) && i < |fields| && fields[i].offset != []
    ensures Moved(fields[..i + 1]) >= 0 && Moved(fields[..i + 1]) % U64_LIMIT < totalClusters
    ensures Meant(fields)[i].lcn == Some(Moved(fields[..i + 1]) % U64_LIMIT)
  {
    hide Moved, FromLE, SignExtend;
    assert Meant(fields)[i] in Meant(fields);
  }

  lemma MoveBound(s: seq<Byte>)
    requires 1 <= |s| <= 8
    ensures SignExtend(s) < LCN_LIMIT
  {
    SignedRange(s);
    Pow256Monotone(|s| - 1, 7);
    Pow256Values();
  }

  lemma {:induction false} Pow256Monotone(m: nat, n: nat)
    requires m <= n
    ensures Pow256(m) <= Pow256(n)
    decreases n
  {
    if m < n {
      Pow256Monotone(m, n - 1);
    }
  }
}
