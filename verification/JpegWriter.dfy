/** Writing a reconstructed JPEG frame into reserved memory (src/jpeg.c:125-391,
    394-609, 695-755). `frame` is the reserved region: its length is the computed
    bound, so every write below is proved to stay inside it. */
module JpegWriters {
  import opened Basics
  import opened AppendableBuffers
  import opened JpegSegments
  import opened JpegTables
  import opened JpegFrames

  // ------------------------------------------------------------- primitives

  /** Copies `bytes` to `p` and moves on. */
  method Emit(frame: array<Byte>, p: nat, bytes: seq<Byte>) returns (q: nat)
    requires p + |bytes| <= frame.Length
    modifies frame
    ensures q == p + |bytes|
    ensures frame[..q] == old(frame[..p]) + bytes
  {
    for i := 0 to |bytes|
      invariant frame[..p] == old(frame[..p])
      invariant frame[p..p + i] == bytes[..i]
    {
      frame[p + i] := bytes[i];
      assert frame[p..p + i + 1] == frame[p..p + i] + [bytes[i]];
    }
    q := p + |bytes|;
    assert frame[..q] == frame[..p] + frame[p..q];
  }

  /** A sum of bytes is zero exactly when they all are. */
  method TableIsEmpty(table: seq<Byte>) returns (empty: bool)
    ensures empty <==> !NotEmpty(table)
  {
    var sum: int := 0;
    for i := 0 to |table|
      invariant 0 <= sum
      invariant sum == 0 <==> forall j :: 0 <= j < i ==> table[j] == 0
    {
      sum := sum + table[i] as int;
    }
    return sum == 0;
  }

  lemma {:induction false} CodesMonotone(codes: seq<Byte>, i: nat)
    requires i <= |codes|
    ensures Codes(codes[..i]) <= Codes(codes)
  {
    if i == |codes| {
      assert codes[..i] == codes;
    } else {
      CodesMonotone(codes[..|codes| - 1], i);
      assert codes[..|codes| - 1][..i] == codes[..i];
    }
  }

  /** Stops as soon as the limit is passed. */
  method CountCodes(codes: seq<Byte>, limit: nat) returns (ok: bool, count: nat)
    ensures ok <==> Codes(codes) <= limit
    ensures ok ==> count == Codes(codes)
  {
    var sum: nat := 0;
    for i := 0 to |codes|
      invariant sum == Codes(codes[..i]) <= limit
    {
      assert codes[..i + 1][..i] == codes[..i];
      CodesMonotone(codes, i + 1);
      sum := sum + codes[i];
      if sum > limit {
        return false, 0;
      }
    }
    assert codes[..|codes|] == codes;
    return true, sum;
  }

  method UsedMask(pic: Picture) returns (ok: bool, mask: set<nat>)
    ensures ok <==> forall i :: 0 <= i < |pic.components| ==> pic.components[i].quant < 4
    ensures ok ==> mask == UsedQuant(pic)
  {
    mask := {};
    for i := 0 to |pic.components|
      invariant forall j :: 0 <= j < i ==> pic.components[j].quant < 4
      invariant mask == set j | 0 <= j < i :: pic.components[j].quant as nat
    {
      if pic.components[i].quant >= 4 {
        return false, {};
      }
      mask := mask + {pic.components[i].quant as nat};
    }
    return true, mask;
  }

  // ------------------------------------------------------------ the writers

  method WriteQuant(frame: array<Byte>, p: nat, st: JpegState) returns (ok: bool, q: nat)
    requires WellTyped(st) && p + 276 <= frame.Length
    modifies frame
    ensures p <= q <= p + 276
    ensures ok <==>
      && (forall i :: 0 <= i < |st.picture.components| ==> st.picture.components[i].quant < 4)
      && UsedQuant(st.picture) <= st.validQuant && QuantFilled(st, 4)
    ensures ok ==> frame[..q] == old(frame[..p]) + EncodeAll(QuantSegments(st, 4))
  {
    hide EncodeAll, Encode;
    var fits, used := UsedMask(st.picture);
    q := p;
    if !fits || !(used <= st.validQuant) {
      return false, p;
    }
    NothingWritten(frame[..p]);
    assert QuantSegments(st, 0) == [];
    for t := 0 to 4
      invariant p <= q <= p + 69 * t
      invariant QuantFilled(st, t)
      invariant frame[..q] == old(frame[..p]) + EncodeAll(QuantSegments(st, t))
    {
      if t in used {
        var empty := TableIsEmpty(st.quant[t]);
        if empty {
          return false, q;
        }
        q := EmitSegment(frame, q, QuantSegment(st, t), old(frame[..p]), QuantSegments(st, t));
      } else {
        assert QuantSegments(st, t + 1) == QuantSegments(st, t);
      }
    }
    return true, q;
  }

  lemma NothingWritten(s: seq<Byte>)
    ensures s == s + EncodeAll([])
  {
  }

  lemma OneMore(segs: seq<Segment>, s: Segment)
    ensures EncodeAll(segs + [s]) == EncodeAll(segs) + Encode(s)
  {
    assert (segs + [s])[..|segs|] == segs;
  }

  /** Writes one segment behind others. */
  method EmitSegment(frame: array<Byte>, p: nat, s: Segment, ghost start: seq<Byte>, ghost segs: seq<Segment>)
    returns (q: nat)
    requires p + |s.payload| + 4 <= frame.Length && frame[..p] == start + EncodeAll(segs)
    modifies frame
    ensures q == p + |s.payload| + 4
    ensures frame[..q] == start + EncodeAll(segs + [s])
  {
    hide EncodeAll;
    q := Emit(frame, p, Encode(s));
    OneMore(segs, s);
    Assoc(start, EncodeAll(segs), Encode(s));
  }

  method WriteStandard(frame: array<Byte>, p: nat) returns (q: nat)
    requires p + 432 <= frame.Length
    modifies frame
    ensures q == p + 432
    ensures frame[..q] == old(frame[..p]) + EncodeAll(Standard())
  {
    hide EncodeAll, HuffmanSegment;
    ghost var start := frame[..p];
    NothingWritten(start);
    StandardSizes();
    var a := HuffmanSegment(0, 0, DcLuminanceBits(), DcLuminanceVals());
    var b := HuffmanSegment(0, 1, DcChrominanceBits(), DcChrominanceVals());
    var c := HuffmanSegment(1, 0, AcLuminanceBits(), AcLuminanceVals());
    var d := HuffmanSegment(1, 1, AcChrominanceBits(), AcChrominanceVals());
    q := EmitSegment(frame, p, a, start, []);
    q := EmitSegment(frame, q, b, start, [] + [a]);
    q := EmitSegment(frame, q, c, start, [] + [a] + [b]);
    q := EmitSegment(frame, q, d, start, [] + [a] + [b] + [c]);
    assert [] + [a] + [b] + [c] + [d] == Standard();
  }

  lemma StandardSizes()
    ensures |HuffmanSegment(0, 0, DcLuminanceBits(), DcLuminanceVals()).payload| == 29
    ensures |HuffmanSegment(0, 1, DcChrominanceBits(), DcChrominanceVals()).payload| == 29
    ensures |HuffmanSegment(1, 0, AcLuminanceBits(), AcLuminanceVals()).payload| == 179
    ensures |HuffmanSegment(1, 1, AcChrominanceBits(), AcChrominanceVals()).payload| == 179
  {
  }

  /** The client's tables. On a bad one it gives up, leaving part of its output
      behind; what precedes `p` is as it was. */
  method WriteVa(frame: array<Byte>, p: nat, st: JpegState, dc: set<nat>, ac: set<nat>) returns (ok: bool, q: nat)
    requires WellTyped(st) && p + 432 <= frame.Length
    modifies frame
    ensures p <= q <= p + 432
    ensures frame[..p] == old(frame[..p])
    ensures ok <==> VaTableOk(st, dc, ac, 0) && VaTableOk(st, dc, ac, 1)
    ensures ok ==>
      frame[..q] == old(frame[..p]) + EncodeAll(VaSegmentsOf(st, dc, ac, 0) + VaSegmentsOf(st, dc, ac, 1))
  {
    hide EncodeAll, VaSegmentsOf, CodesOk;
    ghost var start := frame[..p];
    NothingWritten(start);
    ok, q := WriteVaTable(frame, p, st, dc, ac, 0, start, []);
    if !ok {
      return;
    }
    ghost var first := VaSegmentsOf(st, dc, ac, 0);
    assert [] + first == first;
    ok, q := WriteVaTable(frame, q, st, dc, ac, 1, start, first);
  }

  /** One pass of that loop. */
  method WriteVaTable(frame: array<Byte>, p: nat, st: JpegState, dc: set<nat>, ac: set<nat>, t: nat,
                      ghost start: seq<Byte>, ghost segs: seq<Segment>) returns (ok: bool, q: nat)
    requires WellTyped(st) && t < 2 && p + 216 <= frame.Length
    requires |start| <= p && frame[..p] == start + EncodeAll(segs)
    modifies frame
    ensures p <= q <= p + 216 && |start| <= q
    ensures frame[..|start|] == start
    ensures ok <==> VaTableOk(st, dc, ac, t)
    ensures ok ==> frame[..q] == start + EncodeAll(segs + VaSegmentsOf(st, dc, ac, t))
  {
    hide EncodeAll;
    q := p;
    ghost var done := segs;
    assert frame[..|start|] == frame[..p][..|start|];
    var h := st.huffman[t];
    if t in dc {
      if t !in st.validDc {
        return false, q;
      }
      var fits, count := CountCodes(h.dcCodes, 12);
      if !fits || count == 0 {
        return false, q;
      }
      q := EmitSegment(frame, q, HuffmanSegment(0, t, h.dcCodes, h.dcValues[..count]), start, done);
      done := done + [HuffmanSegment(0, t, h.dcCodes, h.dcValues[..count])];
      assert frame[..|start|] == frame[..q][..|start|];
    }
    if t in ac {
      if t !in st.validAc {
        return false, q;
      }
      var fits, count := CountCodes(h.acCodes, 162);
      if !fits || count == 0 {
        return false, q;
      }
      q := EmitSegment(frame, q, HuffmanSegment(1, t, h.acCodes, h.acValues[..count]), start, done);
      done := done + [HuffmanSegment(1, t, h.acCodes, h.acValues[..count])];
      assert frame[..|start|] == frame[..q][..|start|];
    }
    assert done == segs + VaSegmentsOf(st, dc, ac, t);
    return true, q;
  }

  /** The client's Huffman tables if they are complete and sound, otherwise the
      standard ones, written over whatever the attempt left. */
  method WriteHuffman(frame: array<Byte>, p: nat, st: JpegState, dc: set<nat>, ac: set<nat>) returns (q: nat)
    requires WellTyped(st) && p + 432 <= frame.Length
    modifies frame
    ensures p <= q <= p + 432
    ensures frame[..q] == old(frame[..p]) + EncodeAll(HuffmanSegments(st, dc, ac))
  {
    hide EncodeAll, VaSegmentsOf, VaTableOk, Standard;
    if st.hasHuffman && dc <= st.validDc && ac <= st.validAc {
      var ok, end := WriteVa(frame, p, st, dc, ac);
      if ok {
        return end;
      }
    }
    q := WriteStandard(frame, p);
  }

  // ------------------------------------------------------- scans: the checks

  method ComponentInFrame(pic: Picture, id: Byte) returns (found: bool)
    ensures found <==> InFrame(pic, id)
  {
    for i := 0 to |pic.components|
      invariant forall j :: 0 <= j < i ==> pic.components[j].id != id
    {
      if pic.components[i].id == id {
        return true;
      }
    }
    return false;
  }

  ghost function DcOf(cs: seq<ScanComponent>): set<nat> {
    set c | 0 <= c < |cs| :: cs[c].dc as nat
  }

  ghost function AcOf(cs: seq<ScanComponent>): set<nat> {
    set c | 0 <= c < |cs| :: cs[c].ac as nat
  }

  /** One scan's components: known to the frame, selectors in range, and the
      tables they need. */
  method CheckComponents(pic: Picture, cs: seq<ScanComponent>) returns (ok: bool, dc: set<nat>, ac: set<nat>)
    ensures ok <==>
      && 0 < |cs| <= MAX_COMPONENTS
      && forall i :: 0 <= i < |cs| ==> InFrame(pic, cs[i].selector) && cs[i].dc <= 1 && cs[i].ac <= 1
    ensures ok ==> dc == DcOf(cs) && ac == AcOf(cs)
  {
    hide InFrame;
    dc, ac := {}, {};
    if |cs| == 0 || |cs| > MAX_COMPONENTS {
      return false, dc, ac;
    }
    for i := 0 to |cs|
      invariant forall j :: 0 <= j < i ==> InFrame(pic, cs[j].selector) && cs[j].dc <= 1 && cs[j].ac <= 1
      invariant dc == (set c | 0 <= c < i :: cs[c].dc as nat) && ac == set c | 0 <= c < i :: cs[c].ac as nat
    {
      var known := ComponentInFrame(pic, cs[i].selector);
      if !known || cs[i].dc > 1 || cs[i].ac > 1 {
        return false, dc, ac;
      }
      dc, ac := dc + {cs[i].dc as nat}, ac + {cs[i].ac as nat};
    }
    return true, dc, ac;
  }

  lemma RequiredExtends(scans: seq<Scan>, s: Scan)
    ensures RequiredDc(scans + [s]) == RequiredDc(scans) + DcOf(s.components)
    ensures RequiredAc(scans + [s]) == RequiredAc(scans) + AcOf(s.components)
  {
    var all := scans + [s];
    forall i, c | 0 <= i < |scans| && 0 <= c < |scans[i].components|
      ensures scans[i].components[c].dc as nat in RequiredDc(all) && scans[i].components[c].ac as nat in RequiredAc(all)
    {
      assert all[i] == scans[i];
    }
    forall c | 0 <= c < |s.components|
      ensures s.components[c].dc as nat in RequiredDc(all) && s.components[c].ac as nat in RequiredAc(all)
    {
      assert all[|scans|] == s;
    }
  }

  /** The first loop over the scans: every check, the total, the tables needed. */
  method CheckScans(st: JpegState, scans: seq<Scan>, dataSize: nat)
    returns (ok: bool, total: nat, dc: set<nat>, ac: set<nat>)
    ensures ok <==> forall i :: 0 <= i < |scans| ==> ScanOk(st.picture, scans[i], dataSize)
    ensures ok ==> total == Total(scans) && dc == RequiredDc(scans) && ac == RequiredAc(scans)
  {
    hide RequiredDc, RequiredAc, DcOf, AcOf;
    total, dc, ac := 0, {}, {};
    NothingRequired();
    for i := 0 to |scans|
      invariant forall j :: 0 <= j < i ==> ScanOk(st.picture, scans[j], dataSize)
      invariant total == Total(scans[..i]) && dc == RequiredDc(scans[..i]) && ac == RequiredAc(scans[..i])
    {
      var s := scans[i];
      if !s.whole {
        return false, total, dc, ac;
      }
      var fine, d, a := CheckComponents(st.picture, s.components);
      if !fine || s.offset > dataSize || s.size > dataSize - s.offset {
        return false, total, dc, ac;
      }
      RequiredExtends(scans[..i], s);
      assert scans[..i + 1] == scans[..i] + [s];
      assert scans[..i + 1][..i] == scans[..i];
      total, dc, ac := total + s.size, dc + d, ac + a;
    }
    assert scans[..|scans|] == scans;
    return true, total, dc, ac;
  }

  lemma NothingRequired()
    ensures RequiredDc([]) == {} && RequiredAc([]) == {}
  {
  }

  /** Do all scans share the first one's header, and its restart interval? */
  method CompareScans(scans: seq<Scan>) returns (header: bool, restart: bool)
    requires scans != []
    ensures header <==> SameHeader(scans)
    ensures restart <==> SameRestart(scans)
  {
    header, restart := true, true;
    for i := 1 to |scans|
      invariant header <==> forall j :: 0 <= j < i ==> scans[j].components == scans[0].components
      invariant restart <==> forall j :: 0 <= j < i ==> scans[j].restart == scans[0].restart
    {
      if scans[i].restart != scans[0].restart {
        restart := false;
      }
      if scans[i].components != scans[0].components {
        header := false;
      }
    }
  }

  // ------------------------------------------------------ scans: the writing

  lemma {:induction false} TotalMonotone(scans: seq<Scan>, i: nat)
    requires i < |scans|
    ensures Total(scans[..i]) + scans[i].size <= Total(scans)
    decreases |scans|
  {
    var n := |scans| - 1;
    if i < n {
      TotalMonotone(scans[..n], i);
      assert scans[..n][..i] == scans[..i];
    }
  }

  lemma NextWithin(scans: seq<Scan>, i: nat)
    requires i < |scans|
    ensures Total(scans[..i + 1]) == Total(scans[..i]) + scans[i].size <= Total(scans)
  {
    TotalMonotone(scans, i);
    assert scans[..i + 1][..i] == scans[..i];
  }

  method WriteScanData(frame: array<Byte>, p: nat, scans: seq<Scan>, data: seq<Byte>) returns (q: nat)
    requires InData(scans, data) && p + Total(scans) <= frame.Length
    modifies frame
    ensures q == p + Total(scans)
    ensures frame[..q] == old(frame[..p]) + ScanData(scans, data)
  {
    q := p;
    for i := 0 to |scans|
      invariant q == p + Total(scans[..i]) && q <= frame.Length
      invariant frame[..q] == old(frame[..p]) + ScanData(scans[..i], data)
    {
      assert scans[..i + 1][..i] == scans[..i];
      NextWithin(scans, i);
      q := Emit(frame, q, Slice(data, scans[i]));
      Assoc(old(frame[..p]), ScanData(scans[..i], data), Slice(data, scans[i]));
    }
    assert scans[..|scans|] == scans;
  }

  /** Room for the segments in front of `n` scans. */
  function HeadBytes(per: bool, n: nat): nat {
    if per then 22 * n else 16 * n
  }

  method WriteSeparate(frame: array<Byte>, p: nat, scans: seq<Scan>, data: seq<Byte>, per: bool) returns (q: nat)
    requires InData(scans, data) && p + HeadBytes(per, |scans|) + Total(scans) <= frame.Length
    modifies frame
    ensures p <= q <= p + HeadBytes(per, |scans|) + Total(scans)
    ensures frame[..q] == old(frame[..p]) + Separate(scans, data, per)
  {
    hide EncodeAll, ScanHead, Slice;
    q := p;
    for i := 0 to |scans|
      invariant p <= q <= p + HeadBytes(per, i) + Total(scans[..i]) && q <= frame.Length
      invariant frame[..q] == old(frame[..p]) + Separate(scans[..i], data, per)
    {
      assert scans[..i + 1][..i] == scans[..i];
      NextWithin(scans, i);
      ghost var done := Separate(scans[..i], data, per);
      q := WriteOne(frame, q, scans[i], data, per);
      Assoc(old(frame[..p]), done, EncodeAll(ScanHead(scans[i], per)) + Slice(data, scans[i]));
    }
    assert scans[..|scans|] == scans;
  }

  method WriteOne(frame: array<Byte>, p: nat, s: Scan, data: seq<Byte>, per: bool) returns (q: nat)
    requires |s.components| <= MAX_COMPONENTS && s.offset + s.size <= |data|
    requires p + HeadBytes(per, 1) + s.size <= frame.Length
    modifies frame
    ensures p <= q <= p + HeadBytes(per, 1) + s.size
    ensures frame[..q] == old(frame[..p]) + (EncodeAll(ScanHead(s, per)) + Slice(data, s))
  {
    hide EncodeAll;
    ghost var start, segs := frame[..p], [];
    q := p;
    NothingWritten(start);
    if per && s.restart != 0 {
      q := EmitSegment(frame, q, RestartSegment(s.restart), start, segs);
      segs := segs + [RestartSegment(s.restart)];
    }
    q := EmitSegment(frame, q, ScanSegment(s.components), start, segs);
    assert segs + [ScanSegment(s.components)] == ScanHead(s, per);
    q := Emit(frame, q, Slice(data, s));
    Assoc(start, EncodeAll(ScanHead(s, per)), Slice(data, s));
  }

  method WriteScans(frame: array<Byte>, p: nat, scans: seq<Scan>, data: seq<Byte>, header: bool, restart: bool)
    returns (q: nat)
    requires scans != [] && InData(scans, data) && header == SameHeader(scans) && restart == SameRestart(scans)
    requires p + HeadBytes(!restart, |scans|) + Total(scans) <= frame.Length
    modifies frame
    ensures p <= q <= p + HeadBytes(!restart, |scans|) + Total(scans)
    ensures frame[..q] == old(frame[..p]) + ScanBytes(scans, data)
  {
    hide EncodeAll, ScanSegment;
    if header {
      ghost var start := frame[..p];
      NothingWritten(start);
      SegmentSize(scans[0].components);
      q := EmitSegment(frame, p, ScanSegment(scans[0].components), start, []);
      assert [] + [ScanSegment(scans[0].components)] == [ScanSegment(scans[0].components)];
      q := WriteScanData(frame, q, scans, data);
      Assoc(start, EncodeAll([ScanSegment(scans[0].components)]), ScanData(scans, data));
    } else {
      q := WriteSeparate(frame, p, scans, data, !restart);
    }
  }

  lemma SegmentSize(cs: seq<ScanComponent>)
    requires |cs| <= MAX_COMPONENTS
    ensures |ScanSegment(cs).payload| == 4 + 2 * |cs|
  {
  }

  // -------------------------------------------------------------- the frame

  /** Everything from the start of image to the end of image. Only an empty
      quantiser table can stop it. */
  method WriteFrame(frame: array<Byte>, st: JpegState, scans: seq<Scan>, data: seq<Byte>,
                    dc: set<nat>, ac: set<nat>, header: bool, restart: bool) returns (ok: bool, q: nat)
    requires WellTyped(st) && PictureOk(st) && scans != [] && InData(scans, data)
    requires dc == RequiredDc(scans) && ac == RequiredAc(scans)
    requires header == SameHeader(scans) && restart == SameRestart(scans)
    requires frame.Length == MaxSize(|st.picture.components|, |scans|, Total(scans))
    modifies frame
    ensures q <= frame.Length
    ensures ok <==> QuantFilled(st, 4)
    ensures ok ==> frame[..q] == Frame(st, scans, data)
  {
    hide EncodeAll, ScanBytes, RequiredDc, RequiredAc, SameHeader, SameRestart, HuffmanSegments, QuantSegments;
    hide FrameSegment, PictureOk, QuantFilled, UsedQuant, InData;
    ok, q := WritePrelude(frame, st, scans, dc, ac, restart);
    if !ok {
      return;
    }
    ghost var front := frame[..q];
    q := WriteScans(frame, q, scans, data, header, restart);
    assert frame[..q] == Unclosed(st, scans, data);
    q := Close(frame, q);
  }

  /** The end of image, unless it is there already. */
  method Close(frame: array<Byte>, p: nat) returns (q: nat)
    requires p + 2 <= frame.Length
    modifies frame
    ensures q <= p + 2 && frame[..q] == Closed(old(frame[..p]))
  {
    if p >= 2 && frame[p - 2] == MARKER && frame[p - 1] == EOI {
      assert frame[..p][p - 2..] == [MARKER, EOI];
      return p;
    }
    assert p >= 2 ==> frame[..p][p - 2..] == [frame[p - 2], frame[p - 1]];
    q := Emit(frame, p, [MARKER, EOI]);
  }

  /** The segments in front of the scans. */
  method WritePrelude(frame: array<Byte>, st: JpegState, scans: seq<Scan>, dc: set<nat>, ac: set<nat>, restart: bool)
    returns (ok: bool, q: nat)
    requires WellTyped(st) && PictureOk(st) && scans != []
    requires dc == RequiredDc(scans) && ac == RequiredAc(scans) && restart == SameRestart(scans)
    requires 738 + 3 * |st.picture.components| + 6 <= frame.Length
    modifies frame
    ensures ok <==> QuantFilled(st, 4)
    ensures q <= 738 + 3 * |st.picture.components| + (if restart then 6 else 0)
    ensures ok ==> frame[..q] == [MARKER, SOI] + EncodeAll(Prelude(st, scans))
  {
    hide EncodeAll, RequiredDc, RequiredAc, SameRestart, HuffmanSegments, QuantSegments, QuantFilled, UsedQuant;
    ghost var open := [MARKER, SOI];
    ghost var app := [Segment(APP0, JFIF_PAYLOAD)];
    q := WriteSoi(frame);
    ok, q := WriteQuant(frame, q, st);
    if !ok {
      assert PictureOk(st);
      return;
    }
    ghost var quants := QuantSegments(st, 4);
    JoinMore(open, app, quants);
    FrameSize(st.picture);
    q := EmitSegment(frame, q, FrameSegment(st.picture), open, app + quants);
    ghost var upto := app + quants + [FrameSegment(st.picture)];
    q := WriteHuffman(frame, q, st, dc, ac);
    ghost var tables := HuffmanSegments(st, dc, ac);
    JoinMore(open, upto, tables);
    if restart && scans[0].restart != 0 {
      q := EmitSegment(frame, q, RestartSegment(scans[0].restart), open, upto + tables);
    } else {
      assert upto + tables + [] == upto + tables;
    }
  }

  lemma FrameSize(pic: Picture)
    requires |pic.components| < 256
    ensures |FrameSegment(pic).payload| == 6 + 3 * |pic.components|
  {
  }

  lemma JoinMore(start: seq<Byte>, a: seq<Segment>, b: seq<Segment>)
    ensures start + EncodeAll(a) + EncodeAll(b) == start + EncodeAll(a + b)
  {
    hide EncodeAll;
    EncodeAllJoins(a, b);
    Assoc(start, EncodeAll(a), EncodeAll(b));
  }

  /** Start of image and the JFIF header. */
  method WriteSoi(frame: array<Byte>) returns (q: nat)
    requires 20 <= frame.Length
    modifies frame
    ensures q == 20
    ensures frame[..q] == [MARKER, SOI] + EncodeAll([Segment(APP0, JFIF_PAYLOAD)])
  {
    q := Emit(frame, 0, [MARKER, SOI]);
    assert frame[..q] == [MARKER, SOI];
    NothingWritten(frame[..q]);
    q := EmitSegment(frame, q, Segment(APP0, JFIF_PAYLOAD), [MARKER, SOI], []);
    assert [] + [Segment(APP0, JFIF_PAYLOAD)] == [Segment(APP0, JFIF_PAYLOAD)];
  }
}
