/** A reader of what was written: the marker segments of a finished frame, parsed
    as sections B.2.2 to B.2.4 of ITU-T T.81 lay them out. */
module JpegReaders {
  import opened Basics
  import opened AppendableBuffers
  import opened JpegSegments
  import opened JpegTables
  import opened JpegFrames

  /** What a decoder learns before the first scan's data, in stream order. */
  datatype Header = Header(
    quants: seq<(nat, seq<Byte>)>,
    pictures: seq<Picture>,
    tables: seq<HuffmanTable>,
    restarts: seq<nat>,
    scans: seq<seq<ScanComponent>>)

  const NOTHING: Header := Header([], [], [], [], [])

  function List<T>(o: Option<T>): seq<T> {
    match o
    case None => []
    case Some(x) => [x]
  }

  function ParseRestart(s: Segment): Option<nat> {
    if s.marker == 0xDD && |s.payload| == 2 then Some(FromBe16(s.payload)) else None
  }

  function ReadOne(s: Segment): Header {
    Header(List(ParseQuant(s)), List(ParseFrame(s)), List(ParseHuffman(s)), List(ParseRestart(s)), List(ParseScan(s)))
  }

  function Join(a: Header, b: Header): Header {
    Header(a.quants + b.quants, a.pictures + b.pictures, a.tables + b.tables, a.restarts + b.restarts, a.scans + b.scans)
  }

  function Read(segs: seq<Segment>): Header {
    if segs == [] then NOTHING else Join(Read(segs[..|segs| - 1]), ReadOne(segs[|segs| - 1]))
  }

  lemma JoinAssociates(a: Header, b: Header, c: Header)
    ensures Join(Join(a, b), c) == Join(a, Join(b, c))
  {
  }

  lemma JoinNothing(a: Header)
    ensures Join(a, NOTHING) == Join(NOTHING, a) == a
  {
  }

  lemma {:induction false} ReadJoins(a: seq<Segment>, b: seq<Segment>)
    ensures Read(a + b) == Join(Read(a), Read(b))
    decreases |b|
  {
    hide Join, ReadOne;
    if b == [] {
      assert a + b == a;
      JoinNothing(Read(a));
    } else {
      var n := |b| - 1;
      ReadJoins(a, b[..n]);
      assert (a + b)[..|a| + n] == a + b[..n];
      JoinAssociates(Read(a), Read(b[..n]), ReadOne(b[n]));
    }
  }

  lemma ReadSingle(s: Segment)
    ensures Read([s]) == ReadOne(s)
  {
    hide Join, ReadOne;
    assert [s][..0] == [];
    JoinNothing(ReadOne(s));
  }

  // ------------------------------------------------ what ought to come back

  /** The quantiser tables in use below `k`, by number. */
  ghost function UsedTables(st: JpegState, k: nat): seq<(nat, seq<Byte>)>
    requires WellTyped(st) && k <= 4
  {
    if k == 0 then []
    else UsedTables(st, k - 1) + if k - 1 in UsedQuant(st.picture) then [(k - 1, st.quant[k - 1])] else []
  }

  ghost function ClientTables(st: JpegState, dc: set<nat>, ac: set<nat>, t: nat): seq<HuffmanTable>
    requires WellTyped(st) && t < 2 && VaTableOk(st, dc, ac, t)
  {
    var h := st.huffman[t];
    (if t in dc then [HuffmanTable(0, t, h.dcCodes, h.dcValues[..Codes(h.dcCodes)])] else []) +
    (if t in ac then [HuffmanTable(1, t, h.acCodes, h.acValues[..Codes(h.acCodes)])] else [])
  }

  ghost function StandardTables(): seq<HuffmanTable> {
    [HuffmanTable(0, 0, DcLuminanceBits(), DcLuminanceVals()),
     HuffmanTable(0, 1, DcChrominanceBits(), DcChrominanceVals()),
     HuffmanTable(1, 0, AcLuminanceBits(), AcLuminanceVals()),
     HuffmanTable(1, 1, AcChrominanceBits(), AcChrominanceVals())]
  }

  /** The client's tables when all those required are sound, else the standard ones. */
  ghost function TablesFor(st: JpegState, dc: set<nat>, ac: set<nat>): seq<HuffmanTable>
    requires WellTyped(st)
  {
    if UsesVa(st, dc, ac) then ClientTables(st, dc, ac, 0) + ClientTables(st, dc, ac, 1) else StandardTables()
  }

  /** The restart interval in force at the first scan. When the scans share one
      header but not one interval, none is written. */
  ghost function RestartsFor(scans: seq<Scan>): seq<nat>
    requires scans != []
  {
    if scans[0].restart != 0 && (SameRestart(scans) || !SameHeader(scans)) then [scans[0].restart] else []
  }

  // ------------------------------------------------------------ part by part

  /** The JFIF application segment: version, density units, densities, thumbnail. */
  datatype Jfif = Jfif(major: nat, minor: nat, units: nat, x: nat, y: nat, thumbWidth: nat, thumbHeight: nat)

  function ParseJfif(s: Segment): Option<Jfif> {
    var p := s.payload;
    if s.marker == 0xE0 && |p| == 14 && p[..5] == [0x4A, 0x46, 0x49, 0x46, 0] then
      Some(Jfif(p[5] as nat, p[6] as nat, p[7] as nat, FromBe16(p[8..10]), FromBe16(p[10..12]), p[12] as nat, p[13] as nat))
    else None
  }

  /** Every frame opens as a JFIF 1.1 file of square pixels without a thumbnail. */
  lemma FrameOpens(st: JpegState, scans: seq<Scan>, data: seq<Byte>)
    requires WellTyped(st) && scans != [] && InData(scans, data)
    ensures |Frame(st, scans, data)| >= 2 && Frame(st, scans, data)[..2] == [0xFF, 0xD8]
    ensures Walk(Frame(st, scans, data), 2).Some? && Walk(Frame(st, scans, data), 2).value.segments != []
    ensures ParseJfif(Walk(Frame(st, scans, data), 2).value.segments[0]) == Some(Jfif(1, 1, 0, 1, 1, 0, 0))
  {
    hide Walk, EncodeAll, ScanBytes, QuantSegments, FrameSegment, HuffmanSegments, RequiredDc, RequiredAc, FirstHead;
    hide WellTyped, SameRestart, ParseJfif;
    FrameWalks(st, scans, data);
    JfifParses();
    assert Plan(st, scans)[0] == Segment(APP0, JFIF_PAYLOAD);
  }

  lemma JfifParses()
    ensures ParseJfif(Segment(APP0, JFIF_PAYLOAD)) == Some(Jfif(1, 1, 0, 1, 1, 0, 0))
  {
    var p := JFIF_PAYLOAD;
    assert p[..5] == [0x4A, 0x46, 0x49, 0x46, 0];
  }

  /** And it ends with an end of image, which is added exactly when the data does not
      already end with one. */
  lemma FrameCloses(st: JpegState, scans: seq<Scan>, data: seq<Byte>)
    requires WellTyped(st) && scans != [] && InData(scans, data)
    ensures var frame, open := Frame(st, scans, data), Unclosed(st, scans, data);
      && |frame| >= 2 && frame[|frame| - 2..] == [0xFF, 0xD9]
      && (frame == open || frame == open + [0xFF, 0xD9])
      && (frame == open <==> |open| >= 2 && open[|open| - 2..] == [0xFF, 0xD9])
  {
    hide WellTyped, Unclosed;
    var open := Unclosed(st, scans, data);
    assert (open + [0xFF, 0xD9])[|open|..] == [0xFF, 0xD9];
    assert |open + [0xFF, 0xD9]| != |open|;
  }

  lemma App0Reads()
    ensures ReadOne(Segment(APP0, JFIF_PAYLOAD)) == NOTHING
  {
  }

  lemma QuantReads(st: JpegState, t: nat)
    requires WellTyped(st) && t < 4
    ensures ReadOne(QuantSegment(st, t)) == NOTHING.(quants := [(t, st.quant[t])])
  {
    QuantParses(st, t);
  }

  lemma {:induction false} QuantsRead(st: JpegState, k: nat)
    requires WellTyped(st) && k <= 4
    ensures Read(QuantSegments(st, k)) == NOTHING.(quants := UsedTables(st, k))
  {
    hide Read, ReadOne, UsedQuant;
    NothingRead();
    if k != 0 {
      QuantsRead(st, k - 1);
      var more := if k - 1 in UsedQuant(st.picture) then [QuantSegment(st, k - 1)] else [];
      ReadJoins(QuantSegments(st, k - 1), more);
      ReadSingle(QuantSegment(st, k - 1));
      QuantReads(st, k - 1);
    }
  }

  lemma NothingRead()
    ensures Read([]) == NOTHING
  {
  }

  lemma PictureReads(pic: Picture)
    requires pic.width < 0x1_0000 && pic.height < 0x1_0000 && |pic.components| < 256 && FourBitFactors(pic)
    ensures ReadOne(FrameSegment(pic)) == NOTHING.(pictures := [pic])
  {
    hide ParseFrame, FourBitFactors;
    FrameParses(pic);
  }

  lemma TableReads(tableClass: nat, id: nat, codes: seq<Byte>, values: seq<Byte>)
    requires tableClass < 16 && id < 16 && |codes| == 16
    ensures ReadOne(HuffmanSegment(tableClass, id, codes, values)) ==
      NOTHING.(tables := [HuffmanTable(tableClass, id, codes, values)])
  {
    hide ParseHuffman, Nibbles;
    HuffmanParses(tableClass, id, codes, values);
  }

  lemma ClientReads(st: JpegState, dc: set<nat>, ac: set<nat>, t: nat)
    requires WellTyped(st) && t < 2 && VaTableOk(st, dc, ac, t)
    ensures Read(VaSegmentsOf(st, dc, ac, t)) == NOTHING.(tables := ClientTables(st, dc, ac, t))
  {
    hide Read, ReadOne, HuffmanSegment;
    var h := st.huffman[t];
    var first := HuffmanSegment(0, t, h.dcCodes, if t in dc then h.dcValues[..Codes(h.dcCodes)] else []);
    var second := HuffmanSegment(1, t, h.acCodes, if t in ac then h.acValues[..Codes(h.acCodes)] else []);
    TableReads(0, t, h.dcCodes, if t in dc then h.dcValues[..Codes(h.dcCodes)] else []);
    TableReads(1, t, h.acCodes, if t in ac then h.acValues[..Codes(h.acCodes)] else []);
    ReadSingle(first);
    ReadSingle(second);
    NothingRead();
    ReadJoins(if t in dc then [first] else [], if t in ac then [second] else []);
  }

  lemma StandardReads()
    ensures Read(Standard()) == NOTHING.(tables := StandardTables())
  {
    hide Read, ReadOne, HuffmanSegment, DcLuminanceBits, DcLuminanceVals, DcChrominanceBits, DcChrominanceVals;
    hide AcLuminanceBits, AcLuminanceVals, AcChrominanceBits, AcChrominanceVals;
    StandardCodes();
    var s := Standard();
    TableReads(0, 0, DcLuminanceBits(), DcLuminanceVals());
    TableReads(0, 1, DcChrominanceBits(), DcChrominanceVals());
    TableReads(1, 0, AcLuminanceBits(), AcLuminanceVals());
    TableReads(1, 1, AcChrominanceBits(), AcChrominanceVals());
    ReadSingle(s[0]);
    ReadSingle(s[1]);
    ReadSingle(s[2]);
    ReadSingle(s[3]);
    ReadJoins([s[0]], [s[1]]);
    ReadJoins([s[0]] + [s[1]], [s[2]]);
    ReadJoins([s[0]] + [s[1]] + [s[2]], [s[3]]);
    assert s == [s[0]] + [s[1]] + [s[2]] + [s[3]];
  }

  lemma StandardCodes()
    ensures |DcLuminanceBits()| == |DcChrominanceBits()| == |AcLuminanceBits()| == |AcChrominanceBits()| == 16
  {
  }

  lemma TablesRead(st: JpegState, dc: set<nat>, ac: set<nat>)
    requires WellTyped(st)
    ensures Read(HuffmanSegments(st, dc, ac)) == NOTHING.(tables := TablesFor(st, dc, ac))
  {
    hide Read, VaSegmentsOf, ClientTables, Standard, StandardTables, WellTyped;
    if UsesVa(st, dc, ac) {
      ClientReads(st, dc, ac, 0);
      ClientReads(st, dc, ac, 1);
      ReadJoins(VaSegmentsOf(st, dc, ac, 0), VaSegmentsOf(st, dc, ac, 1));
    } else {
      StandardReads();
    }
  }

  lemma RestartReads(interval: nat)
    requires interval < 0x1_0000
    ensures ReadOne(RestartSegment(interval)) == NOTHING.(restarts := [interval])
  {
    hide Be16, FromBe16;
    Be16RoundTrip(interval);
  }

  lemma ScanReads(cs: seq<ScanComponent>)
    requires |cs| < 256 && forall i :: 0 <= i < |cs| ==> cs[i].dc < 16 && cs[i].ac < 16
    ensures ReadOne(ScanSegment(cs)) == NOTHING.(scans := [cs])
  {
    hide ParseScan, SelectorBytes;
    ScanParses(cs);
  }

  /** The restart segments in front of the first scan, wherever they stand. */
  lemma HeadReads(scans: seq<Scan>)
    requires scans != [] && scans[0].restart < 0x1_0000 && |scans[0].components| <= MAX_COMPONENTS
    requires forall i :: 0 <= i < |scans[0].components| ==> scans[0].components[i].dc < 16 && scans[0].components[i].ac < 16
    ensures var late := !SameHeader(scans) && !SameRestart(scans) && scans[0].restart != 0;
      Read(FirstHead(scans)) ==
        Header([], [], [], if late then [scans[0].restart] else [], [scans[0].components])
  {
    hide Read, ReadOne, ScanSegment, RestartSegment, SameHeader, SameRestart;
    var s, r := ScanSegment(scans[0].components), RestartSegment(scans[0].restart);
    ReadSingle(s);
    ReadSingle(r);
    ScanReads(scans[0].components);
    RestartReads(scans[0].restart);
    ReadJoins([r], [s]);
    assert [] + [s] == [s];
  }

  lemma PreludeReads(st: JpegState, scans: seq<Scan>)
    requires WellTyped(st) && FourBitFactors(st.picture) && scans != [] && scans[0].restart < 0x1_0000
    ensures var early := SameRestart(scans) && scans[0].restart != 0;
      Read(Prelude(st, scans)) ==
        Header(UsedTables(st, 4), [st.picture], TablesFor(st, RequiredDc(scans), RequiredAc(scans)),
               if early then [scans[0].restart] else [], [])
  {
    hide Read, ReadOne, QuantSegments, FrameSegment, HuffmanSegments, RestartSegment, SameRestart;
    hide RequiredDc, RequiredAc, TablesFor, UsedTables, FourBitFactors;
    var app, quants, pic := [Segment(APP0, JFIF_PAYLOAD)], QuantSegments(st, 4), [FrameSegment(st.picture)];
    var tables := HuffmanSegments(st, RequiredDc(scans), RequiredAc(scans));
    var r := if SameRestart(scans) && scans[0].restart != 0 then [RestartSegment(scans[0].restart)] else [];
    App0Reads();
    ReadSingle(app[0]);
    QuantsRead(st, 4);
    PictureReads(st.picture);
    ReadSingle(pic[0]);
    TablesRead(st, RequiredDc(scans), RequiredAc(scans));
    RestartReads(scans[0].restart);
    ReadSingle(RestartSegment(scans[0].restart));
    NothingRead();
    ReadJoins(app, quants);
    ReadJoins(app + quants, pic);
    ReadJoins(app + quants + pic, tables);
    ReadJoins(app + quants + pic + tables, r);
  }

  // --------------------------------------------------------- the whole frame

  /** A decoder that walks a finished frame learns the picture, the quantiser
      tables in use, the Huffman tables, the restart interval and the first scan
      header, each exactly once and nothing else. */
  lemma FrameReadsBack(st: JpegState, scans: seq<Scan>, data: seq<Byte>)
    requires WellTyped(st) && FourBitFactors(st.picture)
    requires ScansOk(st, scans, |data|) && scans[0].restart < 0x1_0000
    ensures InData(scans, data) && Walk(Frame(st, scans, data), 2).Some?
    ensures Read(Walk(Frame(st, scans, data), 2).value.segments) ==
      Header(UsedTables(st, 4), [st.picture], TablesFor(st, RequiredDc(scans), RequiredAc(scans)),
             RestartsFor(scans), [scans[0].components])
  {
    hide Read, Walk, Frame, Prelude, FirstHead, WellTyped, RequiredDc, RequiredAc, TablesFor, UsedTables;
    hide SameHeader, SameRestart, FourBitFactors;
    assert ScanOk(st.picture, scans[0], |data|);
    FrameWalks(st, scans, data);
    PreludeReads(st, scans);
    HeadReads(scans);
    ReadJoins(Prelude(st, scans), FirstHead(scans));
  }

  ghost predicate Defines(tables: seq<HuffmanTable>, tableClass: nat, id: nat) {
    exists i :: 0 <= i < |tables| && tables[i].tableClass == tableClass && tables[i].id == id
  }

  lemma DefinesMore(a: seq<HuffmanTable>, b: seq<HuffmanTable>, tableClass: nat, id: nat)
    requires Defines(a, tableClass, id) || Defines(b, tableClass, id)
    ensures Defines(a + b, tableClass, id)
  {
    if Defines(a, tableClass, id) {
      var i :| 0 <= i < |a| && a[i].tableClass == tableClass && a[i].id == id;
      assert (a + b)[i] == a[i];
    } else {
      var i :| 0 <= i < |b| && b[i].tableClass == tableClass && b[i].id == id;
      assert (a + b)[|a| + i] == b[i];
    }
  }

  lemma OwnTablesDefined(st: JpegState, dc: set<nat>, ac: set<nat>, t: nat)
    requires WellTyped(st) && t < 2 && VaTableOk(st, dc, ac, t)
    ensures t in dc ==> Defines(ClientTables(st, dc, ac, t), 0, t)
    ensures t in ac ==> Defines(ClientTables(st, dc, ac, t), 1, t)
  {
    var mine := ClientTables(st, dc, ac, t);
    if t in dc {
      assert mine[0].tableClass == 0 && mine[0].id == t;
    }
    if t in ac {
      assert mine[|mine| - 1].tableClass == 1 && mine[|mine| - 1].id == t;
    }
  }

  lemma ClientDefines(st: JpegState, dc: set<nat>, ac: set<nat>, t: nat)
    requires WellTyped(st) && UsesVa(st, dc, ac) && t < 2
    ensures t in dc ==> Defines(TablesFor(st, dc, ac), 0, t)
    ensures t in ac ==> Defines(TablesFor(st, dc, ac), 1, t)
  {
    hide WellTyped, Defines, ClientTables, VaTableOk, StandardTables;
    OwnTablesDefined(st, dc, ac, t);
    if t in dc {
      DefinesMore(ClientTables(st, dc, ac, 0), ClientTables(st, dc, ac, 1), 0, t);
    }
    if t in ac {
      DefinesMore(ClientTables(st, dc, ac, 0), ClientTables(st, dc, ac, 1), 1, t);
    }
  }

  lemma StandardDefines(t: nat)
    requires t < 2
    ensures Defines(StandardTables(), 0, t) && Defines(StandardTables(), 1, t)
  {
    var s := StandardTables();
    assert s[t].tableClass == 0 && s[t].id == t && s[2 + t].tableClass == 1 && s[2 + t].id == t;
  }

  /** Every Huffman table that an accepted scan selects is defined before the
      first scan, whichever tables were chosen. */
  lemma SelectedTablesDefined(st: JpegState, scans: seq<Scan>, dataSize: nat, i: nat, c: nat)
    requires WellTyped(st) && ScansOk(st, scans, dataSize)
    requires i < |scans| && c < |scans[i].components|
    ensures var tables := TablesFor(st, RequiredDc(scans), RequiredAc(scans));
      Defines(tables, 0, scans[i].components[c].dc as nat) && Defines(tables, 1, scans[i].components[c].ac as nat)
  {
    hide WellTyped, Defines, StandardTables, ClientTables;
    assert ScanOk(st.picture, scans[i], dataSize);
    var dc, ac := RequiredDc(scans), RequiredAc(scans);
    var d, a := scans[i].components[c].dc as nat, scans[i].components[c].ac as nat;
    assert d in dc && a in ac;
    if UsesVa(st, dc, ac) {
      ClientDefines(st, dc, ac, d);
      ClientDefines(st, dc, ac, a);
    } else {
      StandardDefines(d);
      StandardDefines(a);
    }
  }

  /** The quantiser tables written are exactly those that some component selects. */
  lemma {:induction false} UsedTablesHold(st: JpegState, k: nat, t: nat, table: seq<Byte>)
    requires WellTyped(st) && k <= 4
    ensures (t, table) in UsedTables(st, k) <==>
      t < k && table == st.quant[t] && exists i :: 0 <= i < |st.picture.components| && st.picture.components[i].quant as nat == t
  {
    if k != 0 {
      UsedTablesHold(st, k - 1, t, table);
    }
  }

  // ------------------------------------------------------ which Huffman tables

  /** Every table that a scan selects was sent by the client, with a code count that
      fits its values. */
  ghost predicate ClientSound(st: JpegState, scans: seq<Scan>)
    requires WellTyped(st)
  {
    && st.hasHuffman
    && forall i, c :: 0 <= i < |scans| && 0 <= c < |scans[i].components| ==>
         DcSound(st, scans[i].components[c].dc as nat) && AcSound(st, scans[i].components[c].ac as nat)
  }

  ghost predicate DcSound(st: JpegState, t: nat)
    requires WellTyped(st)
  {
    t < 2 && t in st.validDc && 1 <= Codes(st.huffman[t].dcCodes) <= 12
  }

  ghost predicate AcSound(st: JpegState, t: nat)
    requires WellTyped(st)
  {
    t < 2 && t in st.validAc && 1 <= Codes(st.huffman[t].acCodes) <= 162
  }

  lemma TwoHuffmanTables(st: JpegState)
    requires WellTyped(st)
    ensures |st.huffman| == 2
  {
  }

  lemma SoundIsUsed(st: JpegState, scans: seq<Scan>, dataSize: nat)
    requires WellTyped(st) && ScansOk(st, scans, dataSize)
    ensures UsesVa(st, RequiredDc(scans), RequiredAc(scans)) <==> ClientSound(st, scans)
  {
    TwoHuffmanTables(st);
    hide WellTyped, Codes;
    var dc, ac := RequiredDc(scans), RequiredAc(scans);
    if UsesVa(st, dc, ac) {
      forall i, c | 0 <= i < |scans| && 0 <= c < |scans[i].components|
        ensures DcSound(st, scans[i].components[c].dc as nat) && AcSound(st, scans[i].components[c].ac as nat)
      {
        assert ScanOk(st.picture, scans[i], dataSize);
        var d, a := scans[i].components[c].dc as nat, scans[i].components[c].ac as nat;
        assert d in dc && a in ac;
        assert VaTableOk(st, dc, ac, d) && VaTableOk(st, dc, ac, a);
      }
    }
  }

  /** The table a selected number is read with: the client's when all that are
      selected are sound, else the standard one. */
  ghost function DcTable(st: JpegState, scans: seq<Scan>, t: nat): HuffmanTable
    requires WellTyped(st) && t < 2
  {
    if ClientSound(st, scans) && Codes(st.huffman[t].dcCodes) <= 12
    then HuffmanTable(0, t, st.huffman[t].dcCodes, st.huffman[t].dcValues[..Codes(st.huffman[t].dcCodes)])
    else if t == 0 then HuffmanTable(0, 0, DcLuminanceBits(), DcLuminanceVals())
    else HuffmanTable(0, 1, DcChrominanceBits(), DcChrominanceVals())
  }

  ghost function AcTable(st: JpegState, scans: seq<Scan>, t: nat): HuffmanTable
    requires WellTyped(st) && t < 2
  {
    if ClientSound(st, scans) && Codes(st.huffman[t].acCodes) <= 162
    then HuffmanTable(1, t, st.huffman[t].acCodes, st.huffman[t].acValues[..Codes(st.huffman[t].acCodes)])
    else if t == 0 then HuffmanTable(1, 0, AcLuminanceBits(), AcLuminanceVals())
    else HuffmanTable(1, 1, AcChrominanceBits(), AcChrominanceVals())
  }

  lemma ClientTableThere(st: JpegState, dc: set<nat>, ac: set<nat>, t: nat)
    requires WellTyped(st) && UsesVa(st, dc, ac) && t < 2
    ensures var h, tables := st.huffman[t], ClientTables(st, dc, ac, 0) + ClientTables(st, dc, ac, 1);
      && (t in dc ==> HuffmanTable(0, t, h.dcCodes, h.dcValues[..Codes(h.dcCodes)]) in tables)
      && (t in ac ==> HuffmanTable(1, t, h.acCodes, h.acValues[..Codes(h.acCodes)]) in tables)
  {
    hide Codes;
    var mine := ClientTables(st, dc, ac, t);
    var h := st.huffman[t];
    if t in dc {
      assert mine[0] == HuffmanTable(0, t, h.dcCodes, h.dcValues[..Codes(h.dcCodes)]);
    }
    if t in ac {
      assert mine[|mine| - 1] == HuffmanTable(1, t, h.acCodes, h.acValues[..Codes(h.acCodes)]);
    }
    assert forall x :: x in mine ==> x in ClientTables(st, dc, ac, 0) + ClientTables(st, dc, ac, 1);
  }

  lemma StandardTableThere(t: nat)
    requires t < 2
    ensures (if t == 0 then HuffmanTable(0, 0, DcLuminanceBits(), DcLuminanceVals())
             else HuffmanTable(0, 1, DcChrominanceBits(), DcChrominanceVals())) in StandardTables()
    ensures (if t == 0 then HuffmanTable(1, 0, AcLuminanceBits(), AcLuminanceVals())
             else HuffmanTable(1, 1, AcChrominanceBits(), AcChrominanceVals())) in StandardTables()
  {
    hide DcLuminanceBits, DcLuminanceVals, DcChrominanceBits, DcChrominanceVals;
    hide AcLuminanceBits, AcLuminanceVals, AcChrominanceBits, AcChrominanceVals;
    var s := StandardTables();
    assert s[t] in s && s[2 + t] in s;
  }

  /** Every table that an accepted scan selects is read as the client sent it when
      all selected ones are sound, and as the standard one otherwise. */
  lemma SelectedTableIs(st: JpegState, scans: seq<Scan>, dataSize: nat, i: nat, c: nat)
    requires WellTyped(st) && ScansOk(st, scans, dataSize)
    requires i < |scans| && c < |scans[i].components|
    ensures scans[i].components[c].dc < 2 && scans[i].components[c].ac < 2
    ensures var tables := TablesFor(st, RequiredDc(scans), RequiredAc(scans));
      && DcTable(st, scans, scans[i].components[c].dc as nat) in tables
      && AcTable(st, scans, scans[i].components[c].ac as nat) in tables
  {
    hide WellTyped, StandardTables, ClientTables, Codes, VaTableOk;
    hide DcLuminanceBits, DcLuminanceVals, DcChrominanceBits, DcChrominanceVals;
    hide AcLuminanceBits, AcLuminanceVals, AcChrominanceBits, AcChrominanceVals;
    assert ScanOk(st.picture, scans[i], dataSize);
    var dc, ac := RequiredDc(scans), RequiredAc(scans);
    var d, a := scans[i].components[c].dc as nat, scans[i].components[c].ac as nat;
    assert d in dc && a in ac;
    SoundIsUsed(st, scans, dataSize);
    hide RequiredDc, RequiredAc, ScanOk, UsesVa;
    if UsesVa(st, dc, ac) {
      assert DcSound(st, d) && AcSound(st, a);
      ClientTableThere(st, dc, ac, d);
      ClientTableThere(st, dc, ac, a);
    } else {
      StandardTableThere(d);
      StandardTableThere(a);
    }
  }
}
