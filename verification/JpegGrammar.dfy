/**
 * The images a JPEG carve accepts, after annex B of ITU-T T.81: the marker codes of table B.1, frame headers by section
 * B.2.2 and scan headers by section B.2.3, as far as crates/carving/src/jpeg.rs checks them.
 */
module JpegGrammar {
  import opened Common

  // ---------- Table B.1 ----------

  /** Start of frame: SOF0 to SOF3, SOF5 to SOF7, SOF9 to SOF11, SOF13 to SOF15. */
  const FRAMES: set<Byte> := {0xC0, 0xC1, 0xC2, 0xC3, 0xC5, 0xC6, 0xC7, 0xC9, 0xCA, 0xCB, 0xCD, 0xCE, 0xCF}

  /** RST0 to RST7. */
  const RESTARTS: set<Byte> := {0xD0, 0xD1, 0xD2, 0xD3, 0xD4, 0xD5, 0xD6, 0xD7}

  /** DHT, JPG and DAC; DQT, DNL, DRI, DHP and EXP; APP0 to APP15; JPG0 to JPG13; COM. */
  predicate OtherSegment(marker: Byte) {
    marker in {0xC4, 0xC8, 0xCC, 0xDB, 0xDC, 0xDD, 0xDE, 0xDF, 0xFE} || marker / 16 == 0xE || 0xF0 <= marker <= 0xFD
  }

  // ---------- The two headers ----------

  /** Two bytes, the more significant first. */
  function Word(n: nat): seq<Byte>
    requires n < 0x1_0000
  {
    [n / 256, n % 256]
  }

  datatype FrameComponent = FrameComponent(id: Byte, sampling: Byte, table: Byte)

  datatype FrameHeader = FrameHeader(precision: Byte, lines: nat, samples: nat, components: seq<FrameComponent>)

  predicate ValidFrame(h: FrameHeader) {
    0 < h.lines < 0x1_0000 && 0 < h.samples < 0x1_0000 && 0 < |h.components| < 256
  }

  function FrameComponentsBytes(components: seq<FrameComponent>): seq<Byte> {
    if components == [] then []
    else
      var last := components[|components| - 1];
      FrameComponentsBytes(components[..|components| - 1]) + [last.id, last.sampling, last.table]
  }

  function FrameBytes(h: FrameHeader): seq<Byte>
    requires ValidFrame(h)
  {
    [h.precision] + Word(h.lines) + Word(h.samples) + [|h.components|] + FrameComponentsBytes(h.components)
  }

  ghost predicate IsFrameHeader(payload: seq<Byte>) {
    exists h :: ValidFrame(h) && FrameBytes(h) == payload
  }

  datatype ScanComponent = ScanComponent(selector: Byte, tables: Byte)

  datatype ScanHeader = ScanHeader(components: seq<ScanComponent>, first: Byte, last: Byte, approximation: Byte)

  predicate ValidScan(h: ScanHeader) {
    0 < |h.components| < 256
  }

  function ScanComponentsBytes(components: seq<ScanComponent>): seq<Byte> {
    if components == [] then []
    else
      var last := components[|components| - 1];
      ScanComponentsBytes(components[..|components| - 1]) + [last.selector, last.tables]
  }

  function ScanHeaderBytes(h: ScanHeader): seq<Byte>
    requires ValidScan(h)
  {
    [|h.components|] + ScanComponentsBytes(h.components) + [h.first, h.last, h.approximation]
  }

  ghost predicate IsScanHeader(payload: seq<Byte>) {
    exists h :: ValidScan(h) && ScanHeaderBytes(h) == payload
  }

  // ---------- What the headers' lengths and leading bytes are ----------

  lemma {:induction false} FrameComponentsLength(components: seq<FrameComponent>)
    ensures |FrameComponentsBytes(components)| == 3 * |components|
  {
    if components != [] {
      FrameComponentsLength(components[..|components| - 1]);
    }
  }

  lemma {:induction false} ReadFrameComponents(bytes: seq<Byte>) returns (components: seq<FrameComponent>)
    requires |bytes| % 3 == 0
    ensures FrameComponentsBytes(components) == bytes && 3 * |components| == |bytes|
  {
    if bytes == [] {
      components := [];
    } else {
      var n := |bytes| - 3;
      var rest := ReadFrameComponents(bytes[..n]);
      components := rest + [FrameComponent(bytes[n], bytes[n + 1], bytes[n + 2])];
      assert components[..|rest|] == rest;
      assert bytes == bytes[..n] + [bytes[n], bytes[n + 1], bytes[n + 2]];
    }
  }

  function OfWord(high: nat, low: nat): (n: nat)
    requires high < 256 && low < 256
    ensures n < 0x1_0000 && Word(n) == [high, low]
  {
    high * 256 + low
  }

  predicate FrameShaped(payload: seq<Byte>) {
    && |payload| >= 6 && payload[5] > 0 && |payload| == 6 + 3 * (payload[5] as int)
    && (payload[1] > 0 || payload[2] > 0) && (payload[3] > 0 || payload[4] > 0)
  }

  predicate ScanShaped(payload: seq<Byte>) {
    payload != [] && payload[0] > 0 && |payload| == 4 + 2 * (payload[0] as int)
  }

  /** A payload is a frame header exactly when its sizes and count are positive and its length fits the count. */
  lemma FrameHeaderIff(payload: seq<Byte>)
    ensures IsFrameHeader(payload) <==> FrameShaped(payload)
  {
    if h :| ValidFrame(h) && FrameBytes(h) == payload {
      FrameComponentsLength(h.components);
    }
    if FrameShaped(payload) {
      var components := ReadFrameComponents(payload[6..]);
      var h := FrameHeader(payload[0], OfWord(payload[1], payload[2]), OfWord(payload[3], payload[4]), components);
      assert payload == [payload[0]] + Word(h.lines) + Word(h.samples) + [payload[5]] + payload[6..];
      assert FrameBytes(h) == payload;
    }
  }

  lemma {:induction false} ScanComponentsLength(components: seq<ScanComponent>)
    ensures |ScanComponentsBytes(components)| == 2 * |components|
  {
    if components != [] {
      ScanComponentsLength(components[..|components| - 1]);
    }
  }

  lemma {:induction false} ReadScanComponents(bytes: seq<Byte>) returns (components: seq<ScanComponent>)
    requires |bytes| % 2 == 0
    ensures ScanComponentsBytes(components) == bytes && 2 * |components| == |bytes|
  {
    if bytes == [] {
      components := [];
    } else {
      var n := |bytes| - 2;
      var rest := ReadScanComponents(bytes[..n]);
      components := rest + [ScanComponent(bytes[n], bytes[n + 1])];
      assert components[..|rest|] == rest;
      assert bytes == bytes[..n] + [bytes[n], bytes[n + 1]];
    }
  }

  /** A payload is a scan header exactly when its count is positive and its length fits it. */
  lemma ScanHeaderIff(payload: seq<Byte>)
    ensures IsScanHeader(payload) <==> ScanShaped(payload)
  {
    if h :| ValidScan(h) && ScanHeaderBytes(h) == payload {
      ScanComponentsLength(h.components);
    }
    if ScanShaped(payload) {
      var n := |payload| - 3;
      var components := ReadScanComponents(payload[1..n]);
      var h := ScanHeader(components, payload[n], payload[n + 1], payload[n + 2]);
      assert payload == [payload[0]] + payload[1..n] + [payload[n], payload[n + 1], payload[n + 2]];
      assert ScanHeaderBytes(h) == payload;
    }
  }

  // ---------- Images ----------

  /** Entropy-coded data: plain bytes, and FF-runs closed by a stuffed zero or a restart marker. */
  datatype Unit = Plain(value: Byte) | Escape(fill: nat, code: Byte)

  datatype Item =
    | Tem(fill: nat)
    | Segment(fill: nat, marker: Byte, payload: seq<Byte>)
    | Scan(fill: nat, payload: seq<Byte>, units: seq<Unit>)

  datatype Image = Image(items: seq<Item>, fill: nat)

  const SOI: seq<Byte> := [0xFF, 0xD8]

  /** One or more FF bytes. */
  function Fill(n: nat): (s: seq<Byte>)
    ensures |s| == n + 1
  {
    if n == 0 then [0xFF] else Fill(n - 1) + [0xFF]
  }

  function LengthBytes(payload: seq<Byte>): seq<Byte>
    requires |payload| + 2 < 0x1_0000
  {
    Word(|payload| + 2)
  }

  function UnitBytes(u: Unit): seq<Byte> {
    match u
    case Plain(v) => [v]
    case Escape(fill, code) => Fill(fill) + [code]
  }

  function UnitsBytes(units: seq<Unit>): seq<Byte> {
    if units == [] then [] else UnitsBytes(units[..|units| - 1]) + UnitBytes(units[|units| - 1])
  }

  predicate ValidUnit(u: Unit) {
    match u
    case Plain(v) => v != 0xFF
    case Escape(_, code) => code == 0 || code in RESTARTS
  }

  ghost predicate ValidItem(item: Item, frameSeen: bool) {
    match item
    case Tem(_) => true
    case Segment(_, marker, payload) =>
      && (marker in FRAMES || OtherSegment(marker)) && |payload| + 2 < 0x1_0000
      && (marker in FRAMES ==> IsFrameHeader(payload))
    case Scan(_, payload, units) =>
      && frameSeen && |payload| + 2 < 0x1_0000 && IsScanHeader(payload)
      && forall u :: u in units ==> ValidUnit(u)
  }

  function ItemBytes(item: Item): seq<Byte>
    requires (item.Segment? || item.Scan?) ==> |item.payload| + 2 < 0x1_0000
  {
    match item
    case Tem(fill) => Fill(fill) + [0x01]
    case Segment(fill, marker, payload) => Fill(fill) + [marker] + LengthBytes(payload) + payload
    case Scan(fill, payload, units) => Fill(fill) + [0xDA] + LengthBytes(payload) + payload + UnitsBytes(units)
  }

  predicate HasSof(items: seq<Item>) {
    exists i :: 0 <= i < |items| && items[i].Segment? && items[i].marker in FRAMES
  }

  predicate HasScan(items: seq<Item>) {
    exists i :: 0 <= i < |items| && items[i].Scan?
  }

  /** Every item is legal where it stands: a scan only after a frame header. */
  ghost predicate ValidItems(items: seq<Item>) {
    items == [] ||
    (ValidItems(items[..|items| - 1]) && ValidItem(items[|items| - 1], HasSof(items[..|items| - 1])))
  }

  ghost function ItemsBytes(items: seq<Item>): seq<Byte>
    requires ValidItems(items)
  {
    if items == [] then [] else ItemsBytes(items[..|items| - 1]) + ItemBytes(items[|items| - 1])
  }

  ghost predicate ValidImage(image: Image) {
    ValidItems(image.items) && HasSof(image.items) && HasScan(image.items)
  }

  /** SOI, the items, EOI. */
  ghost function ImageBytes(image: Image): seq<Byte>
    requires ValidItems(image.items)
  {
    SOI + ItemsBytes(image.items) + Fill(image.fill) + [0xD9]
  }
}
