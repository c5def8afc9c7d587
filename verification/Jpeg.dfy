/** The incremental JPEG validator (crates/carving/src/jpeg.rs) and its agreement with the image grammar. */
module Jpeg {
  import opened Common
  import opened JpegGrammar

  /** An open marker segment; `prefix` is the captured part, at most six bytes. */
  datatype SegmentState = SegmentState(marker: Byte, declaredLen: nat, remaining: nat, prefix: seq<Byte>)

  datatype State =
    | SoiPrefix
    | SoiCode
    | MarkerPrefix
    | MarkerCode
    | LengthHigh(marker: Byte)
    | LengthLow(marker: Byte, high: Byte)
    | InSegment(segment: SegmentState)
    | Entropy
    | EntropyMarker
    | Finished
    | Rejected

  datatype Core = Core(state: State, sawSof: bool, sawSos: bool)

  predicate Live(c: Core) {
    !c.state.Finished? && !c.state.Rejected?
  }

  predicate IsSof(marker: Byte) {
    0xC0 <= marker <= 0xCF && marker != 0xC4 && marker != 0xC8 && marker != 0xCC
  }

  function BigEndian(high: nat, low: nat): nat {
    high * 256 + low
  }

  /** B.2.2: nonzero size and components, and the length the component count implies. */
  predicate ValidSof(prefix: seq<Byte>, declaredLen: nat) {
    && |prefix| >= 6
    && BigEndian(prefix[1], prefix[2]) > 0 && BigEndian(prefix[3], prefix[4]) > 0
    && var components: nat := prefix[5]; components > 0 && declaredLen == 8 + 3 * components
  }

  /** B.2.3: at least one component, and the length the component count implies. */
  predicate ValidSos(prefix: seq<Byte>, declaredLen: nat) {
    |prefix| >= 1 && var components: nat := prefix[0]; components > 0 && declaredLen == 6 + 2 * components
  }

  predicate IsRestart(code: Byte) {
    0xD0 <= code <= 0xD7
  }

  /** Markers that open a length-prefixed segment, SOS included. */
  predicate OpensSegment(code: Byte) {
    0xC0 <= code <= 0xFE && !IsRestart(code) && code != 0xD8 && code != 0xD9
  }

  function HandleMarker(c: Core, code: Byte): Core {
    if code == 0x01 then c.(state := MarkerPrefix)
    else if code == 0xD9 then c.(state := if c.sawSof && c.sawSos then Finished else Rejected)
    else if OpensSegment(code) then c.(state := LengthHigh(code))
    else c.(state := Rejected)
  }

  function FinishSegment(c: Core, s: SegmentState): Core {
    if IsSof(s.marker) then
      if ValidSof(s.prefix, s.declaredLen) then c.(state := MarkerPrefix, sawSof := true) else c.(state := Rejected)
    else if s.marker == 0xDA then
      if c.sawSof && ValidSos(s.prefix, s.declaredLen) then c.(state := Entropy, sawSos := true)
      else c.(state := Rejected)
    else c.(state := MarkerPrefix)
  }

  function Advance(c: Core, s: SegmentState): Core {
    if s.remaining == 0 then FinishSegment(c, s) else c.(state := InSegment(s))
  }

  /** `consume`, with the status folded into the state. */
  function Step(c: Core, b: Byte): Core {
    match c.state
    case SoiPrefix => c.(state := if b == 0xFF then SoiCode else Rejected)
    case SoiCode => c.(state := if b == 0xD8 then MarkerPrefix else Rejected)
    case MarkerPrefix => c.(state := if b == 0xFF then MarkerCode else Rejected)
    case MarkerCode => if b == 0xFF then c else HandleMarker(c, b)
    case LengthHigh(marker) => c.(state := LengthLow(marker, b))
    case LengthLow(marker, high) =>
      var declared := BigEndian(high, b);
      if declared < 2 then c.(state := Rejected) else Advance(c, SegmentState(marker, declared, declared - 2, []))
    case InSegment(s) =>
      if s.remaining == 0 then c.(state := Rejected)
      else Advance(c, s.(prefix := if |s.prefix| < 6 then s.prefix + [b] else s.prefix, remaining := s.remaining - 1))
    case Entropy => c.(state := if b == 0xFF then EntropyMarker else Entropy)
    case EntropyMarker =>
      if b == 0xFF then c
      else if b == 0 || IsRestart(b) then c.(state := Entropy)
      else HandleMarker(c, b)
    case Finished => c
    case Rejected => c
  }

  const START := Core(SoiPrefix, false, false)

  function Run(c: Core, bytes: seq<Byte>): Core {
    if bytes == [] then c else Step(Run(c, bytes[..|bytes| - 1]), bytes[|bytes| - 1])
  }

  lemma {:induction false} RunConcat(c: Core, a: seq<Byte>, b: seq<Byte>)
    ensures Run(c, a + b) == Run(Run(c, a), b)
    decreases |b|
  {
    if b == [] {
      assert a + b == a;
    } else {
      assert (a + b)[..|a + b| - 1] == a + b[..|b| - 1];
      RunConcat(c, a, b[..|b| - 1]);
    }
  }

  lemma RunOne(c: Core, b: Byte)
    ensures Run(c, [b]) == Step(c, b)
  {
    assert [b][..0] == [];
    assert Run(c, []) == c;
  }

  lemma {:induction false} RunDead(c: Core, bytes: seq<Byte>)
    requires !Live(c)
    ensures Run(c, bytes) == c
  {
    if bytes != [] {
      RunDead(c, bytes[..|bytes| - 1]);
    }
  }

  /** The validator says valid at the last of these bytes, and not before. */
  predicate AcceptedAt(bytes: seq<Byte>) {
    bytes != [] && Live(Run(START, bytes[..|bytes| - 1])) && Run(START, bytes).state.Finished?
  }

  // ---------- Soundness: a live or accepting run has parsed the grammar so far ----------

  function FirstSix(payload: seq<Byte>): seq<Byte> {
    if |payload| <= 6 then payload else payload[..6]
  }

  /** The machine has finished these items and nothing is open except, perhaps, entropy data of the last scan. */
  ghost predicate Between(sof: bool, sos: bool, bytes: seq<Byte>, items: seq<Item>) {
    && ValidItems(items) && bytes == SOI + ItemsBytes(items)
    && sof == HasSof(items) && sos == HasScan(items)
  }

  ghost predicate LastIsScan(items: seq<Item>) {
    items != [] && items[|items| - 1].Scan?
  }

  /** What the bytes consumed so far are, in grammar terms, for each live state. */
  ghost predicate Explains(c: Core, bytes: seq<Byte>, done: seq<Byte>, items: seq<Item>, fill: nat,
                           payload: seq<Byte>)
  {
    match c.state
    case SoiPrefix => bytes == [] && !c.sawSof && !c.sawSos
    case SoiCode => bytes == [0xFF] && !c.sawSof && !c.sawSos
    case MarkerPrefix => Between(c.sawSof, c.sawSos, bytes, items)
    case Entropy => Between(c.sawSof, c.sawSos, bytes, items) && LastIsScan(items)
    case MarkerCode => Between(c.sawSof, c.sawSos, done, items) && bytes == done + Fill(fill)
    case EntropyMarker => Between(c.sawSof, c.sawSos, done, items) && bytes == done + Fill(fill) && LastIsScan(items)
    case LengthHigh(marker) => Between(c.sawSof, c.sawSos, done, items) && bytes == done + Fill(fill) + [marker] &&
      OpensSegment(marker)
    case LengthLow(marker, high) => Between(c.sawSof, c.sawSos, done, items) &&
      bytes == done + Fill(fill) + [marker, high] && OpensSegment(marker)
    case InSegment(s) =>
      && Between(c.sawSof, c.sawSos, done, items) && OpensSegment(s.marker) && s.remaining > 0
      && s.declaredLen < 0x1_0000 && s.declaredLen == 2 + |payload| + s.remaining && s.prefix == FirstSix(payload)
      && bytes == done + Fill(fill) + [s.marker, s.declaredLen / 256, s.declaredLen % 256] + payload
    case Finished => Between(c.sawSof, c.sawSos, done, items) && bytes == done + Fill(fill) + [0xD9] && c.sawSof &&
      c.sawSos
    case Rejected => true
  }

  lemma ItemsSnoc(items: seq<Item>, item: Item)
    requires ValidItems(items) && ValidItem(item, HasSof(items))
    ensures ValidItems(items + [item]) && ItemsBytes(items + [item]) == ItemsBytes(items) + ItemBytes(item)
    ensures HasSof(items + [item]) <==> HasSof(items) || (item.Segment? && item.marker in FRAMES)
    ensures HasScan(items + [item]) <==> HasScan(items) || item.Scan?
  {
    hide ItemBytes, ValidItem;
    var more := items + [item];
    assert more[..|more| - 1] == items;
    assert more[|items|] == item && forall i :: 0 <= i < |items| ==> more[i] == items[i];
  }

  /** The item list with one more entropy unit in its last scan. */
  function WithUnit(items: seq<Item>, unit: Unit): seq<Item>
    requires items != [] && items[|items| - 1].Scan?
  {
    items[..|items| - 1] + [items[|items| - 1].(units := items[|items| - 1].units + [unit])]
  }

  lemma ScanGrows(items: seq<Item>, unit: Unit)
    requires ValidItems(items) && LastIsScan(items) && ValidUnit(unit)
    ensures ValidItems(WithUnit(items, unit)) && LastIsScan(WithUnit(items, unit))
    ensures ItemsBytes(WithUnit(items, unit)) == ItemsBytes(items) + UnitBytes(unit)
    ensures HasSof(WithUnit(items, unit)) == HasSof(items) && HasScan(WithUnit(items, unit)) == HasScan(items)
  {
    var rest, last := items[..|items| - 1], items[|items| - 1];
    assert items == rest + [last];
    SwapLast(rest, last, last.(units := last.units + [unit]), unit);
  }

  lemma SwapLast(rest: seq<Item>, last: Item, grown: Item, unit: Unit)
    requires ValidItems(rest) && ValidItem(last, HasSof(rest)) && last.Scan? && ValidUnit(unit)
    requires grown == last.(units := last.units + [unit])
    ensures ValidItems(rest + [grown]) && ValidItems(rest + [last])
    ensures ItemsBytes(rest + [grown]) == ItemsBytes(rest + [last]) + UnitBytes(unit)
    ensures HasSof(rest + [grown]) == HasSof(rest + [last]) && HasScan(rest + [grown]) == HasScan(rest + [last])
  {
    assert ValidItem(grown, HasSof(rest));
    ScanBytes(last, unit);
    hide ItemBytes, ItemsBytes, UnitBytes, UnitsBytes, HasSof, HasScan, ValidItem, ValidItems, ValidUnit;
    ItemsSnoc(rest, last);
    ItemsSnoc(rest, grown);
    Associate(ItemsBytes(rest), ItemBytes(last), UnitBytes(unit));
  }

  lemma ScanBytes(scan: Item, unit: Unit)
    requires scan.Scan? && |scan.payload| + 2 < 0x1_0000
    ensures ItemBytes(scan.(units := scan.units + [unit])) == ItemBytes(scan) + UnitBytes(unit)
  {
    assert (scan.units + [unit])[..|scan.units|] == scan.units;
    var head := Fill(scan.fill) + [0xDA] + LengthBytes(scan.payload) + scan.payload;
    assert head + (UnitsBytes(scan.units) + UnitBytes(unit)) == head + UnitsBytes(scan.units) + UnitBytes(unit);
  }

  /** A complete item after what is already parsed. */
  lemma ItemClosed(sof: bool, sos: bool, done: seq<Byte>, items: seq<Item>, item: Item)
    requires Between(sof, sos, done, items) && ValidItem(item, HasSof(items))
    ensures Between(sof || (item.Segment? && item.marker in FRAMES), sos || item.Scan?, done + ItemBytes(item),
                    items + [item])
    ensures item.Scan? ==> LastIsScan(items + [item])
  {
    hide ItemBytes, ItemsBytes, ValidItems, HasSof, HasScan;
    ItemsSnoc(items, item);
    Associate(SOI, ItemsBytes(items), ItemBytes(item));
  }

  /** A marker code after FF fill, from either marker state. */
  lemma MarkerExplained(c: Core, done: seq<Byte>, items: seq<Item>, fill: nat, code: Byte)
    returns (nextDone: seq<Byte>, nextItems: seq<Item>, nextFill: nat)
    requires Between(c.sawSof, c.sawSos, done, items) && Live(HandleMarker(c, code))
    ensures Explains(HandleMarker(c, code), done + Fill(fill) + [code], nextDone, nextItems, nextFill, [])
  {
    hide Between, Fill;
    if code == 0x01 {
      nextDone, nextItems, nextFill := done, items + [Tem(fill)], 0;
      ItemClosed(c.sawSof, c.sawSos, done, items, Tem(fill));
      Associate(done, Fill(fill), [0x01]);
    } else {
      nextDone, nextItems, nextFill := done, items, fill;
    }
  }

  /** The last payload byte closes a segment: a frame header, a scan header, or anything else. */
  lemma SegmentExplained(c: Core, done: seq<Byte>, items: seq<Item>, fill: nat, payload: seq<Byte>, s: SegmentState)
    returns (nextItems: seq<Item>)
    requires Between(c.sawSof, c.sawSos, done, items) && OpensSegment(s.marker)
    requires s.declaredLen == |payload| + 2 < 0x1_0000 && s.prefix == FirstSix(payload)
    requires Live(FinishSegment(c, s))
    ensures FinishSegment(c, s).state == MarkerPrefix || FinishSegment(c, s).state == Entropy
    ensures var bytes := done + Fill(fill) + [s.marker, s.declaredLen / 256, s.declaredLen % 256] + payload;
      Explains(FinishSegment(c, s), bytes, [], nextItems, 0, [])
  {
    var item := if s.marker == 0xDA then Scan(fill, payload, []) else Segment(fill, s.marker, payload);
    nextItems := items + [item];
    HeadersAgree(payload);
    MarkersAgree(s.marker);
    assert ValidItem(item, HasSof(items));
    SegmentBytes(done, item, payload);
    hide Between, ValidItem, ItemBytes;
    ItemClosed(c.sawSof, c.sawSos, done, items, item);
  }

  lemma SegmentBytes(done: seq<Byte>, item: Item, payload: seq<Byte>)
    requires |payload| + 2 < 0x1_0000
    requires (item.Segment? && item.payload == payload) || (item.Scan? && item.payload == payload && item.units == [])
    ensures var marker := if item.Segment? then item.marker else 0xDA;
      done + Fill(item.fill) + [marker, (|payload| + 2) / 256, (|payload| + 2) % 256] + payload
        == done + ItemBytes(item)
  {
  }

  /** The machine's marker tests are the grammar's table. */
  lemma MarkersAgree(code: Byte)
    ensures IsSof(code) <==> code in FRAMES
    ensures IsRestart(code) <==> code in RESTARTS
    ensures OpensSegment(code) <==> code in FRAMES || OtherSegment(code) || code == 0xDA
    ensures !(0xDA in FRAMES) && !OtherSegment(0xDA)
  {
  }

  /** Six captured bytes and the declared length decide what the whole payload is. */
  lemma HeadersAgree(payload: seq<Byte>)
    ensures ValidSof(FirstSix(payload), |payload| + 2) <==> IsFrameHeader(payload)
    ensures ValidSos(FirstSix(payload), |payload| + 2) <==> IsScanHeader(payload)
  {
    FrameHeaderIff(payload);
    ScanHeaderIff(payload);
  }

  datatype Parse = Parse(done: seq<Byte>, items: seq<Item>, fill: nat, payload: seq<Byte>)

  ghost predicate ParsedAs(c: Core, bytes: seq<Byte>, p: Parse) {
    Explains(c, bytes, p.done, p.items, p.fill, p.payload)
  }

  /** One entropy unit completed: the last scan grows by it. */
  lemma UnitExplained(c: Core, done: seq<Byte>, items: seq<Item>, unit: Unit) returns (next: Parse)
    requires Between(c.sawSof, c.sawSos, done, items) && LastIsScan(items) && ValidUnit(unit)
    ensures ParsedAs(c.(state := Entropy), done + UnitBytes(unit), next)
  {
    ScanGrows(items, unit);
    next := Parse([], WithUnit(items, unit), 0, []);
    Associate(SOI, ItemsBytes(items), UnitBytes(unit));
  }

  lemma LengthExplained(c: Core, b: Byte, bytes: seq<Byte>, p: Parse) returns (next: Parse)
    requires c.state.LengthLow? && ParsedAs(c, bytes, p) && Live(Step(c, b))
    ensures ParsedAs(Step(c, b), bytes + [b], next)
  {
    var marker, high := c.state.marker, c.state.high;
    var declared := BigEndian(high, b);
    assert declared / 256 == high && declared % 256 == b;
    assert bytes + [b] == p.done + Fill(p.fill) + [marker, declared / 256, declared % 256] + [];
    next := p.(payload := []);
    if declared == 2 {
      var items := SegmentExplained(c, p.done, p.items, p.fill, [], SegmentState(marker, declared, 0, []));
      next := Parse([], items, 0, []);
    }
  }

  lemma PayloadExplained(c: Core, b: Byte, bytes: seq<Byte>, p: Parse) returns (next: Parse)
    requires c.state.InSegment? && ParsedAs(c, bytes, p) && Live(Step(c, b))
    ensures ParsedAs(Step(c, b), bytes + [b], next)
  {
    var s := c.state.segment;
    var head := p.done + Fill(p.fill) + [s.marker, s.declaredLen / 256, s.declaredLen % 256];
    Associate(head, p.payload, [b]);
    next := p.(payload := p.payload + [b]);
    var advanced := s.(prefix := if |s.prefix| < 6 then s.prefix + [b] else s.prefix, remaining := s.remaining - 1);
    assert advanced.prefix == FirstSix(next.payload);
    if advanced.remaining == 0 {
      var items := SegmentExplained(c, p.done, p.items, p.fill, next.payload, advanced);
      next := Parse([], items, 0, []);
    }
  }

  lemma EntropyExplained(c: Core, b: Byte, bytes: seq<Byte>, p: Parse) returns (next: Parse)
    requires (c.state.Entropy? || c.state.EntropyMarker?) && ParsedAs(c, bytes, p) && !Step(c, b).state.Rejected?
    ensures ParsedAs(Step(c, b), bytes + [b], next)
  {
    hide Between, HandleMarker, IsRestart, LastIsScan;
    MarkersAgree(b);
    if c.state.Entropy? {
      if b == 0xFF {
        next := p.(done := bytes, fill := 0);
      } else {
        next := UnitExplained(c, bytes, p.items, Plain(b));
      }
    } else if b == 0 || IsRestart(b) {
      next := UnitExplained(c, p.done, p.items, Escape(p.fill, b));
      Associate(p.done, Fill(p.fill), [b]);
    } else {
      next := MarkerByteExplained(c, b, bytes, p);
    }
  }

  lemma StepExplained(c: Core, b: Byte, bytes: seq<Byte>, p: Parse) returns (next: Parse)
    requires Live(c) && ParsedAs(c, bytes, p) && !Step(c, b).state.Rejected?
    ensures ParsedAs(Step(c, b), bytes + [b], next)
  {
    hide Between, HandleMarker, LastIsScan;
    next := p;
    match c.state
    case SoiPrefix =>
    case SoiCode =>
      next := Parse([], [], 0, []);
      NothingParsed(c);
    case MarkerPrefix => next := p.(done := bytes, fill := 0);
    case Entropy => next := EntropyExplained(c, b, bytes, p);
    case EntropyMarker => next := EntropyExplained(c, b, bytes, p);
    case MarkerCode => next := MarkerByteExplained(c, b, bytes, p);
    case LengthHigh(marker) => Associate(p.done + Fill(p.fill), [marker], [b]);
    case LengthLow(marker, high) => next := LengthExplained(c, b, bytes, p);
    case InSegment(s) => next := PayloadExplained(c, b, bytes, p);
  }

  lemma NothingParsed(c: Core)
    requires !c.sawSof && !c.sawSos
    ensures Between(c.sawSof, c.sawSos, [0xFF] + [0xD8], [])
  {
    assert [0xFF as Byte] + [0xD8] == SOI + [];
  }

  lemma MarkerByteExplained(c: Core, b: Byte, bytes: seq<Byte>, p: Parse) returns (next: Parse)
    requires (c.state.MarkerCode? || c.state.EntropyMarker?) && ParsedAs(c, bytes, p)
    requires b == 0xFF || Step(c, b) == HandleMarker(c, b)
    requires !Step(c, b).state.Rejected?
    ensures ParsedAs(Step(c, b), bytes + [b], next)
  {
    if b == 0xFF {
      next := p.(fill := p.fill + 1);
      Associate(p.done, Fill(p.fill), [b]);
    } else if b == 0xD9 {
      next := p;
    } else {
      var done, items, fill := MarkerExplained(c, p.done, p.items, p.fill, b);
      next := Parse(done, items, fill, []);
    }
  }

  lemma LivePrefix(bytes: seq<Byte>)
    requires Live(Run(START, bytes))
    ensures bytes != [] ==> Live(Run(START, bytes[..|bytes| - 1]))
  {
  }

  /** Every run that is not rejected has been reading the grammar. */
  lemma {:induction false} RunExplained(bytes: seq<Byte>) returns (p: Parse)
    requires !Run(START, bytes).state.Rejected?
    requires bytes == [] || Live(Run(START, bytes[..|bytes| - 1]))
    ensures ParsedAs(Run(START, bytes), bytes, p)
  {
    StartExplained();
    hide Step, ParsedAs;
    if bytes == [] {
      p := Parse([], [], 0, []);
    } else {
      var rest, last := bytes[..|bytes| - 1], bytes[|bytes| - 1];
      LivePrefix(rest);
      var before := RunExplained(rest);
      p := StepExplained(Run(START, rest), last, rest, before);
      assert rest + [last] == bytes;
    }
  }

  lemma StartExplained()
    ensures ParsedAs(START, [], Parse([], [], 0, []))
  {
  }

  lemma AcceptedIsImage(bytes: seq<Byte>) returns (image: Image)
    requires AcceptedAt(bytes)
    ensures ValidImage(image) && ImageBytes(image) == bytes
  {
    var p := RunExplained(bytes);
    image := Image(p.items, p.fill);
  }

  // ---------- Completeness: every image of the grammar is accepted, at its last byte ----------

  predicate BetweenItems(c: Core) {
    c.state.MarkerPrefix? || c.state.Entropy?
  }

  function AfterFill(c: Core): Core {
    c.(state := if c.state.Entropy? then EntropyMarker else MarkerCode)
  }

  lemma RunSnoc(c: Core, bytes: seq<Byte>, b: Byte)
    ensures Run(c, bytes + [b]) == Step(Run(c, bytes), b)
  {
    assert (bytes + [b])[..|bytes|] == bytes;
  }

  lemma {:induction false} RunFill(c: Core, n: nat)
    requires BetweenItems(c)
    ensures Run(c, Fill(n)) == AfterFill(c)
  {
    FillStep(c);
    hide Step, Run, AfterFill;
    if n == 0 {
      RunOne(c, 0xFF);
    } else {
      RunFill(c, n - 1);
      RunSnoc(c, Fill(n - 1), 0xFF);
    }
  }

  lemma FillStep(c: Core)
    requires BetweenItems(c)
    ensures Step(c, 0xFF) == AfterFill(c) && Step(AfterFill(c), 0xFF) == AfterFill(c)
  {
  }

  lemma RunFillThen(c: Core, n: nat, b: Byte)
    requires BetweenItems(c)
    ensures Run(c, Fill(n) + [b]) == Step(AfterFill(c), b)
  {
    RunFill(c, n);
    RunSnoc(c, Fill(n), b);
  }

  lemma RunUnit(c: Core, unit: Unit)
    requires c.state.Entropy? && ValidUnit(unit)
    ensures Run(c, UnitBytes(unit)) == c
  {
    hide Run, HandleMarker;
    match unit
    case Plain(v) => RunOne(c, v);
    case Escape(fill, code) =>
      MarkersAgree(code);
      RunFillThen(c, fill, code);
  }

  lemma {:induction false} RunUnits(c: Core, units: seq<Unit>)
    requires c.state.Entropy? && forall u :: u in units ==> ValidUnit(u)
    ensures Run(c, UnitsBytes(units)) == c
  {
    hide Run, ValidUnit, UnitBytes;
    if units == [] {
      RunNothing(c);
    } else {
      var rest, last := units[..|units| - 1], units[|units| - 1];
      assert last in units && forall u :: u in rest ==> u in units;
      RunUnits(c, rest);
      RunConcat(c, UnitsBytes(rest), UnitBytes(last));
      RunUnit(c, last);
    }
  }

  lemma FirstSixSnoc(payload: seq<Byte>, b: Byte)
    ensures FirstSix(payload + [b]) == if |FirstSix(payload)| < 6 then FirstSix(payload) + [b] else FirstSix(payload)
  {
  }

  /** In the middle of a payload the state holds the captured prefix and what is left. */
  lemma {:induction false} RunPayload(c: Core, marker: Byte, declared: nat, payload: seq<Byte>)
    requires |payload| + 2 < declared
    requires c.state == InSegment(SegmentState(marker, declared, declared - 2, []))
    ensures Run(c, payload)
      == c.(state := InSegment(SegmentState(marker, declared, declared - 2 - |payload|, FirstSix(payload))))
  {
    hide Run, FirstSix, Step;
    if payload != [] {
      var rest, last := payload[..|payload| - 1], payload[|payload| - 1];
      assert payload == rest + [last];
      RunPayload(c, marker, declared, rest);
      FirstSixSnoc(rest, last);
      RunSnoc(c, rest, last);
      PayloadByte(Run(c, rest), last);
    } else {
      RunNothing(c);
      NothingCaptured();
    }
  }

  lemma NothingCaptured()
    ensures FirstSix([]) == []
  {
  }

  lemma PayloadByte(c: Core, b: Byte)
    requires c.state.InSegment? && c.state.segment.remaining > 1
    ensures var s := c.state.segment;
      Step(c, b) == c.(state := InSegment(s.(prefix := if |s.prefix| < 6 then s.prefix + [b] else s.prefix,
                                             remaining := s.remaining - 1)))
  {
  }

  /** The whole payload, from the state its length bytes left behind. */
  lemma RunWholePayload(c: Core, marker: Byte, payload: seq<Byte>)
    requires payload != []
    requires c.state == InSegment(SegmentState(marker, |payload| + 2, |payload|, []))
    ensures Run(c, payload) == FinishSegment(c, SegmentState(marker, |payload| + 2, 0, FirstSix(payload)))
  {
    var rest, last := payload[..|payload| - 1], payload[|payload| - 1];
    assert payload == rest + [last];
    RunPayload(c, marker, |payload| + 2, rest);
    FirstSixSnoc(rest, last);
    hide FirstSix, Run;
    RunSnoc(c, rest, last);
    LastPayloadByte(c.(state := InSegment(SegmentState(marker, |payload| + 2, 1, FirstSix(rest)))), last);
    FinishIgnoresState(c, c.(state := InSegment(SegmentState(marker, |payload| + 2, 1, FirstSix(rest)))),
                       SegmentState(marker, |payload| + 2, 0, FirstSix(payload)));
  }

  lemma LastPayloadByte(c: Core, b: Byte)
    requires c.state.InSegment? && c.state.segment.remaining == 1
    ensures var s := c.state.segment;
      Step(c, b) == FinishSegment(c, s.(prefix := if |s.prefix| < 6 then s.prefix + [b] else s.prefix, remaining := 0))
  {
  }

  lemma RunLength(c: Core, marker: Byte, payload: seq<Byte>)
    requires c.state == LengthHigh(marker) && |payload| + 2 < 0x1_0000
    ensures Run(c, LengthBytes(payload)) == Advance(c, SegmentState(marker, |payload| + 2, |payload|, []))
  {
    var high, low := (|payload| + 2) / 256, (|payload| + 2) % 256;
    assert BigEndian(high, low) == |payload| + 2;
    RunOne(c, high);
    RunSnoc(c, [high], low);
    assert LengthBytes(payload) == [high] + [low];
  }

  /** A whole segment, from its FF fill to the end of its payload. */
  lemma RunSegment(c: Core, fill: nat, marker: Byte, payload: seq<Byte>)
    requires BetweenItems(c) && OpensSegment(marker) && |payload| + 2 < 0x1_0000
    ensures Run(c, Fill(fill) + [marker] + LengthBytes(payload) + payload)
      == FinishSegment(c, SegmentState(marker, |payload| + 2, 0, FirstSix(payload)))
  {
    var afterCode := c.(state := LengthHigh(marker));
    RunFillThen(c, fill, marker);
    assert Step(AfterFill(c), marker) == afterCode;
    RunLength(afterCode, marker, payload);
    hide Step, FinishSegment, LengthBytes, Run;
    var started := Advance(afterCode, SegmentState(marker, |payload| + 2, |payload|, []));
    RunConcat(c, Fill(fill) + [marker], LengthBytes(payload));
    RunConcat(c, Fill(fill) + [marker] + LengthBytes(payload), payload);
    if payload == [] {
      RunNothing(started);
    } else {
      RunWholePayload(started, marker, payload);
    }
    FinishIgnoresState(c, afterCode, SegmentState(marker, |payload| + 2, 0, FirstSix(payload)));
    FinishIgnoresState(c, started, SegmentState(marker, |payload| + 2, 0, FirstSix(payload)));
  }

  lemma RunNothing(c: Core)
    ensures Run(c, []) == c
  {
  }

  lemma FinishIgnoresState(c: Core, d: Core, s: SegmentState)
    requires c.sawSof == d.sawSof && c.sawSos == d.sawSos
    ensures FinishSegment(c, s) == FinishSegment(d, s)
  {
  }

  function AfterItem(c: Core, item: Item): Core {
    Core(if item.Scan? then Entropy else MarkerPrefix, c.sawSof || (item.Segment? && item.marker in FRAMES),
         c.sawSos || item.Scan?)
  }

  lemma RunItem(c: Core, item: Item)
    requires BetweenItems(c) && ValidItem(item, c.sawSof)
    ensures Run(c, ItemBytes(item)) == AfterItem(c, item)
  {
    hide Run, UnitsBytes;
    match item
    case Tem(fill) => RunFillThen(c, fill, 0x01);
    case Segment(fill, marker, payload) =>
      MarkersAgree(marker);
      RunSegment(c, fill, marker, payload);
      HeadersAgree(payload);
    case Scan(fill, payload, units) =>
      RunSegment(c, fill, 0xDA, payload);
      HeadersAgree(payload);
      RunConcat(c, Fill(fill) + [0xDA] + LengthBytes(payload) + payload, UnitsBytes(units));
      RunUnits(AfterItem(c, item), units);
  }

  function AfterItems(items: seq<Item>): Core {
    Core(if items != [] && items[|items| - 1].Scan? then Entropy else MarkerPrefix, HasSof(items), HasScan(items))
  }

  lemma {:induction false} RunItems(items: seq<Item>)
    requires ValidItems(items)
    ensures Run(START, SOI + ItemsBytes(items)) == AfterItems(items)
  {
    RunSoi();
    hide Run, ItemsBytes, AfterItems;
    if items != [] {
      var rest, last := items[..|items| - 1], items[|items| - 1];
      assert items == rest + [last];
      RunItems(rest);
      RunOneMore(rest, last);
    }
  }

  lemma RunOneMore(rest: seq<Item>, last: Item)
    requires ValidItems(rest) && ValidItem(last, HasSof(rest))
    requires Run(START, SOI + ItemsBytes(rest)) == AfterItems(rest)
    ensures ValidItems(rest + [last]) && Run(START, SOI + ItemsBytes(rest + [last])) == AfterItems(rest + [last])
  {
    ItemsSnoc(rest, last);
    RunItem(AfterItems(rest), last);
    assert AfterItem(AfterItems(rest), last) == AfterItems(rest + [last]);
    hide Run, ItemBytes, ItemsBytes, HasSof, HasScan, AfterItems, AfterItem;
    RunConcat(START, SOI + ItemsBytes(rest), ItemBytes(last));
    Associate(SOI, ItemsBytes(rest), ItemBytes(last));
  }

  lemma RunSoi()
    ensures Run(START, SOI + ItemsBytes([])) == AfterItems([])
  {
    RunOne(START, 0xFF);
    RunSnoc(START, [0xFF], 0xD8);
    assert SOI + ItemsBytes([]) == [0xFF] + [0xD8];
  }

  lemma ImageIsAccepted(image: Image)
    requires ValidImage(image)
    ensures AcceptedAt(ImageBytes(image))
  {
    var body, c := SOI + ItemsBytes(image.items), AfterItems(image.items);
    RunItems(image.items);
    EndOfImage(body, c, image.fill);
  }

  lemma EndOfImage(body: seq<Byte>, c: Core, fill: nat)
    requires Run(START, body) == c && BetweenItems(c) && c.sawSof && c.sawSos
    ensures AcceptedAt(body + Fill(fill) + [0xD9])
  {
    RunFill(c, fill);
    assert Step(AfterFill(c), 0xD9).state.Finished? && Live(AfterFill(c));
    hide Run, Step, Fill;
    RunConcat(START, body, Fill(fill));
    AcceptSnoc(body + Fill(fill), 0xD9);
  }

  lemma AcceptSnoc(bytes: seq<Byte>, b: Byte)
    requires Live(Run(START, bytes)) && Step(Run(START, bytes), b).state.Finished?
    ensures AcceptedAt(bytes + [b])
  {
    hide Run, Step;
    RunSnoc(START, bytes, b);
    assert (bytes + [b])[..|bytes + [b]| - 1] == bytes;
  }

  /** The validator accepts after exactly these bytes if and only if the grammar derives them. */
  lemma AcceptedIffGrammar(bytes: seq<Byte>)
    ensures AcceptedAt(bytes) <==> exists image :: ValidImage(image) && ImageBytes(image) == bytes
  {
    if AcceptedAt(bytes) {
      var image := AcceptedIsImage(bytes);
    }
    if image :| ValidImage(image) && ImageBytes(image) == bytes {
      ImageIsAccepted(image);
    }
  }

  /** No image of the grammar is a proper prefix of another. */
  lemma PrefixFree(bytes: seq<Byte>, n: nat)
    requires n < |bytes| && AcceptedAt(bytes[..n])
    ensures !AcceptedAt(bytes)
  {
    var rest := bytes[..|bytes| - 1];
    RunDead(Run(START, bytes[..n]), rest[n..]);
    hide Run, Step;
    RunConcat(START, bytes[..n], rest[n..]);
    assert bytes[..n] + rest[n..] == rest;
  }
}
