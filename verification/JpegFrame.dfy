/** What src/jpeg.c writes for one picture, as a value: the checks on its inputs,
    the segments up to the first scan, the scans, and the size bound. */
module JpegFrames {
  import opened Basics
  import opened AppendableBuffers
  import opened JpegSegments
  import opened JpegTables

  const MAX_COMPONENTS: nat := 4

  datatype Component = Component(id: Byte, h: Byte, v: Byte, quant: Byte)
  datatype Picture = Picture(width: nat, height: nat, components: seq<Component>)
  datatype Huffman = Huffman(dcCodes: seq<Byte>, dcValues: seq<Byte>, acCodes: seq<Byte>, acValues: seq<Byte>)
  datatype ScanComponent = ScanComponent(selector: Byte, dc: Byte, ac: Byte)
  datatype Scan = Scan(whole: bool, components: seq<ScanComponent>, offset: nat, size: nat, restart: nat)

  /** The codec state; a mask is the set of its bit positions. */
  datatype JpegState = JpegState(
    hasPicture: bool,
    hasQuant: bool,
    hasHuffman: bool,
    picture: Picture,
    quant: seq<seq<Byte>>,
    validQuant: set<nat>,
    huffman: seq<Huffman>,
    validDc: set<nat>,
    validAc: set<nat>)

  /** Array lengths and integer widths of the source's structures. */
  ghost predicate WellTyped(st: JpegState) {
    && st.picture.width < 0x1_0000 && st.picture.height < 0x1_0000 && |st.picture.components| < 256
    && |st.quant| == 4 && (forall t :: 0 <= t < 4 ==> |st.quant[t]| == 64)
    && |st.huffman| == 2
    && (forall t :: 0 <= t < 2 ==>
          && |st.huffman[t].dcCodes| == 16 && |st.huffman[t].dcValues| == 12
          && |st.huffman[t].acCodes| == 16 && |st.huffman[t].acValues| == 162)
  }

  ghost predicate ScanTyped(s: Scan) {
    s.offset <= UINT32_MAX && s.size <= UINT32_MAX && s.restart < 0x1_0000
  }

  // ----------------------------------------------------------------- checks

  ghost function UsedQuant(pic: Picture): set<nat> {
    set i | 0 <= i < |pic.components| :: pic.components[i].quant as nat
  }

  ghost predicate InFrame(pic: Picture, id: Byte) {
    exists i :: 0 <= i < |pic.components| && pic.components[i].id == id
  }

  ghost predicate ScanOk(pic: Picture, s: Scan, dataSize: nat) {
    && s.whole
    && 0 < |s.components| <= MAX_COMPONENTS
    && (forall i :: 0 <= i < |s.components| ==>
          InFrame(pic, s.components[i].selector) && s.components[i].dc <= 1 && s.components[i].ac <= 1)
    && s.offset + s.size <= dataSize
  }

  ghost predicate PictureOk(st: JpegState) {
    && st.hasPicture && st.hasQuant
    && st.picture.width != 0 && st.picture.height != 0
    && 0 < |st.picture.components| <= MAX_COMPONENTS
    && (forall i :: 0 <= i < |st.picture.components| ==> st.picture.components[i].quant < 4)
    && UsedQuant(st.picture) <= st.validQuant
  }

  ghost predicate NotEmpty(table: seq<Byte>) {
    exists i :: 0 <= i < |table| && table[i] != 0
  }

  /** The tables in use below `k` hold something. */
  ghost predicate QuantFilled(st: JpegState, k: nat)
    requires WellTyped(st) && k <= 4
  {
    forall t :: 0 <= t < k && t in UsedQuant(st.picture) ==> NotEmpty(st.quant[t])
  }

  ghost predicate ScansOk(st: JpegState, scans: seq<Scan>, dataSize: nat) {
    scans != [] && forall i :: 0 <= i < |scans| ==> ScanOk(st.picture, scans[i], dataSize)
  }

  ghost function RequiredDc(scans: seq<Scan>): set<nat> {
    set i, c | 0 <= i < |scans| && 0 <= c < |scans[i].components| :: scans[i].components[c].dc as nat
  }

  ghost function RequiredAc(scans: seq<Scan>): set<nat> {
    set i, c | 0 <= i < |scans| && 0 <= c < |scans[i].components| :: scans[i].components[c].ac as nat
  }

  function Total(scans: seq<Scan>): nat {
    if scans == [] then 0 else Total(scans[..|scans| - 1]) + scans[|scans| - 1].size
  }

  /** The worst case that is reserved before anything is written. */
  function MaxSize(components: nat, scans: nat, total: nat): nat {
    20 + 4 * 69 + (10 + 3 * components) + 2 * (33 + 183) + 6 * scans + 16 * scans + total + 2
  }

  // --------------------------------------------------------------- segments

  const JFIF_PAYLOAD: seq<Byte> := [0x4A, 0x46, 0x49, 0x46, 0x00, 0x01, 0x01, 0x00, 0x00, 0x01, 0x00, 0x01, 0x00, 0x00]

  function QuantSegment(st: JpegState, t: nat): Segment
    requires t < 4 <= |st.quant|
  {
    Segment(DQT, [t] + st.quant[t])
  }

  ghost function QuantSegments(st: JpegState, k: nat): seq<Segment>
    requires k <= 4 <= |st.quant|
  {
    if k == 0 then []
    else QuantSegments(st, k - 1) +
         if k - 1 in UsedQuant(st.picture) then [QuantSegment(st, k - 1)] else []
  }

  function ComponentBytes(cs: seq<Component>): (r: seq<Byte>)
    ensures |r| == 3 * |cs|
  {
    if cs == [] then []
    else
      var c := cs[|cs| - 1];
      ComponentBytes(cs[..|cs| - 1]) + [c.id, Nibbles(c.h as nat, c.v as nat), c.quant]
  }

  function FrameSegment(pic: Picture): Segment
    requires |pic.components| < 256
  {
    Segment(SOF0, [8] + Be16(pic.height) + Be16(pic.width) + [|pic.components|] + ComponentBytes(pic.components))
  }

  function HuffmanSegment(tableClass: nat, id: nat, codes: seq<Byte>, values: seq<Byte>): Segment {
    Segment(DHT, [Nibbles(tableClass, id)] + codes + values)
  }

  function Standard(): seq<Segment> {
    [HuffmanSegment(0, 0, DcLuminanceBits(), DcLuminanceVals()),
     HuffmanSegment(0, 1, DcChrominanceBits(), DcChrominanceVals()),
     HuffmanSegment(1, 0, AcLuminanceBits(), AcLuminanceVals()),
     HuffmanSegment(1, 1, AcChrominanceBits(), AcChrominanceVals())]
  }

  function Codes(s: seq<Byte>): nat {
    if s == [] then 0 else Codes(s[..|s| - 1]) + s[|s| - 1]
  }

  predicate CodesOk(codes: seq<Byte>, limit: nat) {
    0 < Codes(codes) <= limit
  }

  ghost predicate VaTableOk(st: JpegState, dc: set<nat>, ac: set<nat>, t: nat)
    requires t < |st.huffman|
  {
    && (t in dc ==> t in st.validDc && CodesOk(st.huffman[t].dcCodes, 12))
    && (t in ac ==> t in st.validAc && CodesOk(st.huffman[t].acCodes, 162))
  }

  ghost function VaSegmentsOf(st: JpegState, dc: set<nat>, ac: set<nat>, t: nat): seq<Segment>
    requires WellTyped(st) && t < 2 && VaTableOk(st, dc, ac, t)
  {
    var h := st.huffman[t];
    (if t in dc then [HuffmanSegment(0, t, h.dcCodes, h.dcValues[..Codes(h.dcCodes)])] else []) +
    (if t in ac then [HuffmanSegment(1, t, h.acCodes, h.acValues[..Codes(h.acCodes)])] else [])
  }

  /** The client's tables are used when every required one is there and sound. */
  ghost predicate UsesVa(st: JpegState, dc: set<nat>, ac: set<nat>)
    requires WellTyped(st)
  {
    && st.hasHuffman && dc <= st.validDc && ac <= st.validAc
    && VaTableOk(st, dc, ac, 0) && VaTableOk(st, dc, ac, 1)
  }

  ghost function HuffmanSegments(st: JpegState, dc: set<nat>, ac: set<nat>): seq<Segment>
    requires WellTyped(st)
  {
    if UsesVa(st, dc, ac) then VaSegmentsOf(st, dc, ac, 0) + VaSegmentsOf(st, dc, ac, 1) else Standard()
  }

  function RestartSegment(interval: nat): Segment {
    Segment(DRI, Be16(interval))
  }

  function SelectorBytes(cs: seq<ScanComponent>): (r: seq<Byte>)
    ensures |r| == 2 * |cs|
  {
    if cs == [] then []
    else
      var c := cs[|cs| - 1];
      SelectorBytes(cs[..|cs| - 1]) + [c.selector, Nibbles(c.dc as nat, c.ac as nat)]
  }

  function ScanSegment(cs: seq<ScanComponent>): Segment
    requires |cs| < 256
  {
    Segment(SOS, [|cs|] + SelectorBytes(cs) + [0, 63, 0])
  }

  // ------------------------------------------------------------------ scans

  ghost predicate SameRestart(scans: seq<Scan>) {
    forall i :: 0 <= i < |scans| ==> scans[i].restart == scans[0].restart
  }

  ghost predicate SameHeader(scans: seq<Scan>) {
    forall i :: 0 <= i < |scans| ==> scans[i].components == scans[0].components
  }

  function Slice(data: seq<Byte>, s: Scan): seq<Byte>
    requires s.offset + s.size <= |data|
  {
    data[s.offset..s.offset + s.size]
  }

  ghost predicate InData(scans: seq<Scan>, data: seq<Byte>) {
    forall i :: 0 <= i < |scans| ==> scans[i].offset + scans[i].size <= |data| && |scans[i].components| <= MAX_COMPONENTS
  }

  ghost function ScanData(scans: seq<Scan>, data: seq<Byte>): (r: seq<Byte>)
    requires InData(scans, data)
    ensures |r| == Total(scans)
  {
    if scans == [] then []
    else ScanData(scans[..|scans| - 1], data) + Slice(data, scans[|scans| - 1])
  }

  /** The segments in front of one scan's data. */
  function ScanHead(s: Scan, perScanRestart: bool): seq<Segment>
    requires |s.components| <= MAX_COMPONENTS
  {
    (if perScanRestart && s.restart != 0 then [RestartSegment(s.restart)] else []) + [ScanSegment(s.components)]
  }

  ghost function Separate(scans: seq<Scan>, data: seq<Byte>, perScanRestart: bool): seq<Byte>
    requires InData(scans, data)
  {
    if scans == [] then []
    else
      var s := scans[|scans| - 1];
      Separate(scans[..|scans| - 1], data, perScanRestart) +
        (EncodeAll(ScanHead(s, perScanRestart)) + Slice(data, s))
  }

  ghost function ScanBytes(scans: seq<Scan>, data: seq<Byte>): seq<Byte>
    requires scans != [] && InData(scans, data)
  {
    if SameHeader(scans) then EncodeAll([ScanSegment(scans[0].components)]) + ScanData(scans, data)
    else Separate(scans, data, !SameRestart(scans))
  }

  // ------------------------------------------------------------------ frame

  /** Everything between the start of image and the scans. */
  ghost function Prelude(st: JpegState, scans: seq<Scan>): seq<Segment>
    requires WellTyped(st) && scans != []
  {
    [Segment(APP0, JFIF_PAYLOAD)] + QuantSegments(st, 4) + [FrameSegment(st.picture)] +
      HuffmanSegments(st, RequiredDc(scans), RequiredAc(scans)) +
      if SameRestart(scans) && scans[0].restart != 0 then [RestartSegment(scans[0].restart)] else []
  }

  ghost function Unclosed(st: JpegState, scans: seq<Scan>, data: seq<Byte>): seq<Byte>
    requires WellTyped(st) && scans != [] && InData(scans, data)
  {
    [MARKER, SOI] + EncodeAll(Prelude(st, scans)) + ScanBytes(scans, data)
  }

  /** The end of image is added unless the client's data already has it. */
  function Closed(bytes: seq<Byte>): seq<Byte> {
    if |bytes| >= 2 && bytes[|bytes| - 2..] == [MARKER, EOI] then bytes else bytes + [MARKER, EOI]
  }

  ghost function Frame(st: JpegState, scans: seq<Scan>, data: seq<Byte>): seq<Byte>
    requires WellTyped(st) && scans != [] && InData(scans, data)
  {
    Closed(Unclosed(st, scans, data))
  }

  // ------------------------------------------------------------ reading back

  /** The segments a reader meets up to the first scan's data. */
  ghost function FirstHead(scans: seq<Scan>): seq<Segment>
    requires scans != [] && |scans[0].components| <= MAX_COMPONENTS
  {
    if SameHeader(scans) then [ScanSegment(scans[0].components)] else ScanHead(scans[0], !SameRestart(scans))
  }

  ghost function Plan(st: JpegState, scans: seq<Scan>): seq<Segment>
    requires WellTyped(st) && scans != [] && |scans[0].components| <= MAX_COMPONENTS
  {
    Prelude(st, scans) + FirstHead(scans)
  }

  lemma {:induction false} SeparateFront(scans: seq<Scan>, data: seq<Byte>, per: bool) returns (rest: seq<Byte>)
    requires scans != [] && InData(scans, data)
    ensures Separate(scans, data, per) == EncodeAll(ScanHead(scans[0], per)) + rest
    decreases |scans|
  {
    hide EncodeAll, ScanHead, Slice;
    var n := |scans| - 1;
    var head := EncodeAll(ScanHead(scans[0], per));
    if n == 0 {
      assert scans[..0] == [];
      rest := Slice(data, scans[0]);
      assert Separate(scans, data, per) == [] + (head + rest);
    } else {
      var before := SeparateFront(scans[..n], data, per);
      var tail := EncodeAll(ScanHead(scans[n], per)) + Slice(data, scans[n]);
      rest := before + tail;
      Assoc(head, before, tail);
    }
  }

  lemma ScanBytesFront(scans: seq<Scan>, data: seq<Byte>) returns (rest: seq<Byte>)
    requires scans != [] && InData(scans, data)
    ensures ScanBytes(scans, data) == EncodeAll(FirstHead(scans)) + rest
  {
    if SameHeader(scans) {
      rest := ScanData(scans, data);
    } else {
      rest := SeparateFront(scans, data, !SameRestart(scans));
    }
  }

  ghost predicate Plain(segs: seq<Segment>) {
    forall i :: 0 <= i < |segs| ==> |segs[i].payload| + 2 < 0x1_0000 && segs[i].marker != SOS
  }

  lemma {:induction false} QuantPlain(st: JpegState, k: nat)
    requires WellTyped(st) && k <= 4
    ensures Plain(QuantSegments(st, k))
  {
    if k != 0 {
      QuantPlain(st, k - 1);
    }
  }

  lemma StandardPlain()
    ensures Plain(Standard())
  {
  }

  lemma VaPlain(st: JpegState, dc: set<nat>, ac: set<nat>, t: nat)
    requires WellTyped(st) && t < 2 && VaTableOk(st, dc, ac, t)
    ensures Plain(VaSegmentsOf(st, dc, ac, t))
  {
  }

  lemma PlainJoins(a: seq<Segment>, b: seq<Segment>)
    requires Plain(a) && Plain(b)
    ensures Plain(a + b)
  {
  }

  lemma HuffmanPlain(st: JpegState, dc: set<nat>, ac: set<nat>)
    requires WellTyped(st)
    ensures Plain(HuffmanSegments(st, dc, ac))
  {
    hide VaSegmentsOf, Standard, Plain;
    StandardPlain();
    if UsesVa(st, dc, ac) {
      VaPlain(st, dc, ac, 0);
      VaPlain(st, dc, ac, 1);
      PlainJoins(VaSegmentsOf(st, dc, ac, 0), VaSegmentsOf(st, dc, ac, 1));
    }
  }

  lemma PreludePlain(st: JpegState, scans: seq<Scan>)
    requires WellTyped(st) && scans != []
    ensures Plain(Prelude(st, scans))
  {
    hide QuantSegments, HuffmanSegments;
    QuantPlain(st, 4);
    HuffmanPlain(st, RequiredDc(scans), RequiredAc(scans));
  }

  lemma HeadWalkable(scans: seq<Scan>)
    requires scans != [] && |scans[0].components| <= MAX_COMPONENTS
    ensures Walkable(FirstHead(scans))
  {
  }

  lemma PlanWalkable(plain: seq<Segment>, head: seq<Segment>)
    requires Plain(plain) && Walkable(head)
    ensures Walkable(plain + head)
  {
  }

  /** Walking a finished frame from behind its start of image finds exactly the
      segments that were planned, ending at the first scan's data. */
  lemma FrameWalks(st: JpegState, scans: seq<Scan>, data: seq<Byte>)
    requires WellTyped(st) && scans != [] && InData(scans, data)
    ensures var plan := Plan(st, scans);
      Walk(Frame(st, scans, data), 2) == Some(Walked(plan, 2 + |EncodeAll(plan)|))
  {
    hide Walk, EncodeAll, Prelude, FirstHead, ScanBytes, Walkable, Plain;
    var plan := Plan(st, scans);
    PreludePlain(st, scans);
    HeadWalkable(scans);
    PlanWalkable(Prelude(st, scans), FirstHead(scans));
    var rest := ScanBytesFront(scans, data);
    EncodeAllJoins(Prelude(st, scans), FirstHead(scans));
    var open := [MARKER, SOI];
    var close := if Frame(st, scans, data) == Unclosed(st, scans, data) then [] else [MARKER, EOI];
    Regroup(open, EncodeAll(Prelude(st, scans)), EncodeAll(FirstHead(scans)), rest, close);
    assert Unclosed(st, scans, data) + [] == Unclosed(st, scans, data);
    WalkInverts(open, plan, rest + close);
  }

  lemma Regroup<T>(a: seq<T>, b: seq<T>, c: seq<T>, d: seq<T>, e: seq<T>)
    ensures (a + b + (c + d)) + e == a + (b + c) + (d + e)
  {
  }

  // ------------------------------------------------------- reading payloads

  function ParseQuant(s: Segment): Option<(nat, seq<Byte>)> {
    if s.marker == 0xDB && |s.payload| == 65 then Some((s.payload[0] as nat, s.payload[1..])) else None
  }

  lemma QuantParses(st: JpegState, t: nat)
    requires WellTyped(st) && t < 4
    ensures ParseQuant(QuantSegment(st, t)) == Some((t, st.quant[t]))
  {
  }

  function ParseComponents(s: seq<Byte>): seq<Component> {
    if |s| < 3 then []
    else
      var n := |s| - 3;
      ParseComponents(s[..n]) + [Component(s[n], s[n + 1] / 16, s[n + 1] % 16, s[n + 2])]
  }

  /** A baseline frame header, with samples of eight bits. */
  function ParseFrame(s: Segment): Option<Picture> {
    if s.marker == 0xC0 && |s.payload| >= 6 && s.payload[0] == 8 && |s.payload| == 6 + 3 * s.payload[5] as int then
      Some(Picture(FromBe16(s.payload[3..5]), FromBe16(s.payload[1..3]), ParseComponents(s.payload[6..])))
    else None
  }

  lemma NoComponentsParse()
    ensures ParseComponents([]) == []
  {
  }

  lemma LastComponentParses(init: seq<Byte>, c: Component)
    requires c.h < 16 && c.v < 16
    ensures ParseComponents(init + [c.id, Nibbles(c.h as nat, c.v as nat), c.quant]) == ParseComponents(init) + [c]
  {
    hide Nibbles;
    NibblesSplit(c.h as nat, c.v as nat);
    var s := init + [c.id, Nibbles(c.h as nat, c.v as nat), c.quant];
    assert s[..|s| - 3] == init;
  }

  lemma {:induction false} ComponentsParse(cs: seq<Component>)
    requires forall i :: 0 <= i < |cs| ==> cs[i].h < 16 && cs[i].v < 16
    ensures ParseComponents(ComponentBytes(cs)) == cs
  {
    hide ParseComponents, Nibbles;
    if cs == [] {
      NoComponentsParse();
    } else {
      var n := |cs| - 1;
      ComponentsParse(cs[..n]);
      LastComponentParses(ComponentBytes(cs[..n]), cs[n]);
    }
  }

  lemma {:induction false} ParsedFactorsFit(s: seq<Byte>)
    ensures forall i :: 0 <= i < |ParseComponents(s)| ==> ParseComponents(s)[i].h < 16 && ParseComponents(s)[i].v < 16
  {
    if |s| >= 3 {
      ParsedFactorsFit(s[..|s| - 3]);
    }
  }

  ghost predicate FourBitFactors(pic: Picture) {
    forall i :: 0 <= i < |pic.components| ==> pic.components[i].h < 16 && pic.components[i].v < 16
  }

  /** The frame header gives back the picture exactly when its sampling factors
      fit in four bits. */
  lemma FrameParses(pic: Picture)
    requires pic.width < 0x1_0000 && pic.height < 0x1_0000 && |pic.components| < 256
    ensures ParseFrame(FrameSegment(pic)) == Some(pic) <==> FourBitFactors(pic)
  {
    hide ParseComponents, ComponentBytes, FromBe16, Be16;
    var p := FrameSegment(pic).payload;
    Be16RoundTrip(pic.width);
    Be16RoundTrip(pic.height);
    assert p[1..3] == Be16(pic.height) && p[3..5] == Be16(pic.width);
    assert p[6..] == ComponentBytes(pic.components);
    if FourBitFactors(pic) {
      ComponentsParse(pic.components);
    }
    ParsedFactorsFit(p[6..]);
  }

  /** The source packs the factors without checking them; one of 16 does not come
      back. */
  lemma WideFactorIsLost()
    ensures var pic := Picture(1, 1, [Component(1, 16, 1, 0)]);
      ParseFrame(FrameSegment(pic)) != Some(pic)
  {
    var pic := Picture(1, 1, [Component(1, 16, 1, 0)]);
    assert pic.components[0].h == 16;
    FrameParses(pic);
  }

  datatype HuffmanTable = HuffmanTable(tableClass: nat, id: nat, codes: seq<Byte>, values: seq<Byte>)

  function ParseHuffman(s: Segment): Option<HuffmanTable> {
    if s.marker == 0xC4 && |s.payload| >= 17 then
      Some(HuffmanTable(s.payload[0] as nat / 16, s.payload[0] as nat % 16, s.payload[1..17], s.payload[17..]))
    else None
  }

  lemma HuffmanParses(tableClass: nat, id: nat, codes: seq<Byte>, values: seq<Byte>)
    requires tableClass < 16 && id < 16 && |codes| == 16
    ensures ParseHuffman(HuffmanSegment(tableClass, id, codes, values)) ==
      Some(HuffmanTable(tableClass, id, codes, values))
  {
    NibblesSplit(tableClass, id);
  }

  function ParseSelectors(s: seq<Byte>): seq<ScanComponent> {
    if |s| < 2 then []
    else
      var n := |s| - 2;
      ParseSelectors(s[..n]) + [ScanComponent(s[n], s[n + 1] / 16, s[n + 1] % 16)]
  }

  /** A sequential scan header: all coefficients from 0 to 63, no successive
      approximation. */
  function ParseScan(s: Segment): Option<seq<ScanComponent>> {
    if s.marker == 0xDA && |s.payload| >= 4 && |s.payload| == 4 + 2 * s.payload[0] as int &&
       s.payload[|s.payload| - 3..] == [0, 63, 0] then
      Some(ParseSelectors(s.payload[1..|s.payload| - 3]))
    else None
  }

  lemma LastSelectorParses(init: seq<Byte>, c: ScanComponent)
    requires c.dc < 16 && c.ac < 16
    ensures ParseSelectors(init + [c.selector, Nibbles(c.dc as nat, c.ac as nat)]) == ParseSelectors(init) + [c]
  {
    hide Nibbles;
    NibblesSplit(c.dc as nat, c.ac as nat);
    var s := init + [c.selector, Nibbles(c.dc as nat, c.ac as nat)];
    assert s[..|s| - 2] == init;
  }

  lemma NoSelectorsParse()
    ensures ParseSelectors([]) == []
  {
  }

  lemma {:induction false} SelectorsParse(cs: seq<ScanComponent>)
    requires forall i :: 0 <= i < |cs| ==> cs[i].dc < 16 && cs[i].ac < 16
    ensures ParseSelectors(SelectorBytes(cs)) == cs
  {
    hide ParseSelectors, Nibbles;
    if cs == [] {
      NoSelectorsParse();
    } else {
      var n := |cs| - 1;
      SelectorsParse(cs[..n]);
      LastSelectorParses(SelectorBytes(cs[..n]), cs[n]);
    }
  }

  lemma ScanParses(cs: seq<ScanComponent>)
    requires |cs| < 256 && forall i :: 0 <= i < |cs| ==> cs[i].dc < 16 && cs[i].ac < 16
    ensures ParseScan(ScanSegment(cs)) == Some(cs)
  {
    SelectorsParse(cs);
    var p := ScanSegment(cs).payload;
    assert p[1..|p| - 3] == SelectorBytes(cs) && p[|p| - 3..] == [0, 63, 0];
  }
}
