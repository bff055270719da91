/** From client buffers to a committed JPEG frame (src/jpeg.c:394-609, 695-755):
    check, reserve the bound, write, commit, and undo the recorded offset when
    anything fails. */
module JpegSlices {
  import opened Basics
  import opened AppendableBuffers
  import opened JpegSegments
  import opened JpegTables
  import opened JpegFrames
  import opened JpegWriters
  import SliceAssembly

  /** The largest scan count for which the 64-bit sum of the bound cannot wrap. */
  const SAFE_SCANS: nat := 0xFFFF_FFEA

  ghost predicate Accepted(st: JpegState, scans: seq<Scan>, dataSize: nat)
    requires WellTyped(st)
  {
    PictureOk(st) && ScansOk(st, scans, dataSize) && QuantFilled(st, 4)
  }

  ghost predicate ScansTyped(scans: seq<Scan>) {
    forall i :: 0 <= i < |scans| ==> ScanTyped(scans[i])
  }

  ghost function BoundOf(st: JpegState, scans: seq<Scan>): nat {
    MaxSize(|st.picture.components|, |scans|, Total(scans))
  }

  /** What is reserved: the bound as a 64-bit sum. */
  ghost function Reservation(st: JpegState, scans: seq<Scan>): nat {
    BoundOf(st, scans) % TWO_64
  }

  /** Room for the bound behind `held` bytes. */
  ghost predicate Room(bound: nat, held: nat, capacity: nat, granted: bool) {
    held + bound <= SIZE_MAX && (held + bound <= capacity || granted)
  }

  /** Checked scans whose 64-bit bound wraps and whose reservation succeeds: the
      writers are let loose on a region that is too small. */
  ghost predicate WritesOutside(st: JpegState, scans: seq<Scan>, dataSize: nat, held: nat, capacity: nat, granted: bool) {
    && PictureOk(st) && ScansOk(st, scans, dataSize)
    && Room(Reservation(st, scans), held, capacity, granted)
    && BoundOf(st, scans) >= TWO_64
  }

  lemma {:induction false} TotalBound(scans: seq<Scan>)
    requires ScansTyped(scans)
    ensures Total(scans) <= |scans| * UINT32_MAX
  {
    if scans != [] {
      TotalBound(scans[..|scans| - 1]);
    }
  }

  /** Summed in 64 bits, the bound is exact for every accepted total exactly up
      to SAFE_SCANS scans; a 32-bit scan count can exceed that by 21. */
  lemma BoundFits(components: nat, n: nat)
    requires 0 < components <= MAX_COMPONENTS
    ensures n <= SAFE_SCANS <==> forall total: nat :: total <= n * UINT32_MAX ==> MaxSize(components, n, total) < TWO_64
  {
    var worst := n * UINT32_MAX;
    assert MaxSize(components, n, worst) == 740 + 3 * components + n * (UINT32_MAX + 22);
    if n <= SAFE_SCANS {
      MulMonotone(n, SAFE_SCANS, UINT32_MAX + 22);
    } else {
      MulMonotone(SAFE_SCANS + 1, n, UINT32_MAX + 22);
      assert MaxSize(components, n, worst) >= TWO_64;
    }
  }

  /** Up to SAFE_SCANS scans no accepted picture can make the 64-bit sum wrap. */
  lemma BoundInRange(st: JpegState, scans: seq<Scan>)
    requires PictureOk(st) && ScansTyped(scans) && |scans| <= SAFE_SCANS
    ensures BoundOf(st, scans) < TWO_64
  {
    TotalBound(scans);
    BoundFits(|st.picture.components|, |scans|);
  }

  // ------------------------------------------------- the bound and the frame

  lemma {:induction false} QuantSize(st: JpegState, k: nat)
    requires WellTyped(st) && k <= 4
    ensures |EncodeAll(QuantSegments(st, k))| <= 69 * k
  {
    if k != 0 {
      QuantSize(st, k - 1);
      var more := if k - 1 in UsedQuant(st.picture) then [QuantSegment(st, k - 1)] else [];
      EncodeAllJoins(QuantSegments(st, k - 1), more);
      OneSegmentSize(QuantSegment(st, k - 1));
    }
  }

  lemma OneSegmentSize(s: Segment)
    ensures EncodeAll([s]) == Encode(s) && |EncodeAll([s])| == |s.payload| + 4
  {
    hide Encode;
    assert [s][..0] == [];
    assert [] + Encode(s) == Encode(s);
  }

  lemma TableSize(tableClass: nat, id: nat, codes: seq<Byte>, values: seq<Byte>)
    requires |codes| == 16
    ensures |EncodeAll([HuffmanSegment(tableClass, id, codes, values)])| == 21 + |values|
  {
    OneSegmentSize(HuffmanSegment(tableClass, id, codes, values));
  }

  lemma ClientTablesSize(st: JpegState, dc: set<nat>, ac: set<nat>, t: nat)
    requires WellTyped(st) && t < 2 && VaTableOk(st, dc, ac, t)
    ensures |EncodeAll(VaSegmentsOf(st, dc, ac, t))| <= 216
  {
    hide EncodeAll, HuffmanSegment;
    var h := st.huffman[t];
    var first := if t in dc then [HuffmanSegment(0, t, h.dcCodes, h.dcValues[..Codes(h.dcCodes)])] else [];
    var second := if t in ac then [HuffmanSegment(1, t, h.acCodes, h.acValues[..Codes(h.acCodes)])] else [];
    if t in dc {
      TableSize(0, t, h.dcCodes, h.dcValues[..Codes(h.dcCodes)]);
    }
    if t in ac {
      TableSize(1, t, h.acCodes, h.acValues[..Codes(h.acCodes)]);
    }
    NoSegments();
    EncodeAllJoins(first, second);
  }

  lemma NoSegments()
    ensures EncodeAll([]) == []
  {
  }

  lemma StandardSize()
    ensures |EncodeAll(Standard())| == 432
  {
    hide EncodeAll, HuffmanSegment;
    var s := Standard();
    StandardTableSizes();
    TableSize(0, 0, DcLuminanceBits(), DcLuminanceVals());
    TableSize(0, 1, DcChrominanceBits(), DcChrominanceVals());
    TableSize(1, 0, AcLuminanceBits(), AcLuminanceVals());
    TableSize(1, 1, AcChrominanceBits(), AcChrominanceVals());
    EncodeAllJoins([s[0]], [s[1]]);
    EncodeAllJoins([s[0]] + [s[1]], [s[2]]);
    EncodeAllJoins([s[0]] + [s[1]] + [s[2]], [s[3]]);
    assert s == [s[0]] + [s[1]] + [s[2]] + [s[3]];
  }

  lemma StandardTableSizes()
    ensures |DcLuminanceBits()| == |DcChrominanceBits()| == |AcLuminanceBits()| == |AcChrominanceBits()| == 16
    ensures |DcLuminanceVals()| == |DcChrominanceVals()| == 12 && |AcLuminanceVals()| == |AcChrominanceVals()| == 162
  {
  }

  lemma TablesSize(st: JpegState, dc: set<nat>, ac: set<nat>)
    requires WellTyped(st)
    ensures |EncodeAll(HuffmanSegments(st, dc, ac))| <= 432
  {
    hide EncodeAll, VaSegmentsOf, Standard, WellTyped;
    if UsesVa(st, dc, ac) {
      ClientTablesSize(st, dc, ac, 0);
      ClientTablesSize(st, dc, ac, 1);
      EncodeAllJoins(VaSegmentsOf(st, dc, ac, 0), VaSegmentsOf(st, dc, ac, 1));
    } else {
      StandardSize();
    }
  }

  lemma PreludeSize(st: JpegState, scans: seq<Scan>)
    requires WellTyped(st) && scans != []
    ensures |EncodeAll(Prelude(st, scans))| <= 736 + 3 * |st.picture.components| + if SameRestart(scans) then 6 else 0
  {
    hide EncodeAll, QuantSegments, HuffmanSegments, FrameSegment, RestartSegment, SameRestart, RequiredDc, RequiredAc;
    var app, quants, pic := [Segment(APP0, JFIF_PAYLOAD)], QuantSegments(st, 4), [FrameSegment(st.picture)];
    var tables := HuffmanSegments(st, RequiredDc(scans), RequiredAc(scans));
    var r := if SameRestart(scans) && scans[0].restart != 0 then [RestartSegment(scans[0].restart)] else [];
    OneSegmentSize(app[0]);
    QuantSize(st, 4);
    FrameSize(st.picture);
    OneSegmentSize(pic[0]);
    TablesSize(st, RequiredDc(scans), RequiredAc(scans));
    NoSegments();
    RestartSize(scans[0].restart);
    EncodeAllJoins(app, quants);
    EncodeAllJoins(app + quants, pic);
    EncodeAllJoins(app + quants + pic, tables);
    EncodeAllJoins(app + quants + pic + tables, r);
  }

  lemma RestartSize(interval: nat)
    ensures |EncodeAll([RestartSegment(interval)])| == 6
  {
    OneSegmentSize(RestartSegment(interval));
  }

  lemma ScanHeadSize(s: Scan, per: bool)
    requires |s.components| <= MAX_COMPONENTS
    ensures |EncodeAll(ScanHead(s, per))| <= HeadBytes(per, 1)
  {
    hide EncodeAll, RestartSegment, ScanSegment;
    SegmentSize(s.components);
    OneSegmentSize(ScanSegment(s.components));
    RestartSize(s.restart);
    NoSegments();
    EncodeAllJoins(if per && s.restart != 0 then [RestartSegment(s.restart)] else [], [ScanSegment(s.components)]);
  }

  lemma {:induction false} SeparateSize(scans: seq<Scan>, data: seq<Byte>, per: bool)
    requires InData(scans, data)
    ensures Total(scans) <= |Separate(scans, data, per)| <= HeadBytes(per, |scans|) + Total(scans)
  {
    hide EncodeAll, ScanHead;
    if scans != [] {
      var n := |scans| - 1;
      SeparateSize(scans[..n], data, per);
      ScanHeadSize(scans[n], per);
    }
  }

  /** Scan data takes at least its own size and at most the room counted for it. */
  lemma ScanBytesSize(scans: seq<Scan>, data: seq<Byte>)
    requires scans != [] && InData(scans, data)
    ensures Total(scans) <= |ScanBytes(scans, data)| <= HeadBytes(!SameRestart(scans), |scans|) + Total(scans)
  {
    hide EncodeAll, ScanSegment, SameRestart, SameHeader, InData, Separate;
    assert |scans[0].components| <= MAX_COMPONENTS by {
      FirstFits(scans, data);
    }
    SegmentSize(scans[0].components);
    OneSegmentSize(ScanSegment(scans[0].components));
    SeparateSize(scans, data, !SameRestart(scans));
  }

  lemma FirstFits(scans: seq<Scan>, data: seq<Byte>)
    requires scans != [] && InData(scans, data)
    ensures |scans[0].components| <= MAX_COMPONENTS
  {
  }

  /** A frame has at least its scan data and at most the bound. */
  lemma FrameWithinBound(st: JpegState, scans: seq<Scan>, data: seq<Byte>)
    requires WellTyped(st) && scans != [] && InData(scans, data)
    ensures Total(scans) <= |Frame(st, scans, data)| <= BoundOf(st, scans)
  {
    hide EncodeAll, Prelude, ScanBytes, WellTyped, InData, SameRestart;
    PreludeSize(st, scans);
    ScanBytesSize(scans, data);
  }

  /** The reserved region holds the frame exactly when the 64-bit bound does not
      wrap, for every list of checked scans that a 32-bit count allows. */
  lemma RegionHoldsFrame(st: JpegState, scans: seq<Scan>, data: seq<Byte>)
    requires WellTyped(st) && PictureOk(st) && ScansOk(st, scans, |data|)
    requires ScansTyped(scans) && |scans| <= UINT32_MAX
    ensures InData(scans, data)
    ensures |Frame(st, scans, data)| <= Reservation(st, scans) <==> BoundOf(st, scans) < TWO_64
  {
    hide Frame, PictureOk, ScanOk, WellTyped;
    AcceptedInData(st, scans, data);
    FrameWithinBound(st, scans, data);
    ComponentsFew(st);
    TotalBound(scans);
    MulMonotone(|scans|, UINT32_MAX, UINT32_MAX);
    WrappedOnce(BoundOf(st, scans));
  }

  lemma ComponentsFew(st: JpegState)
    requires PictureOk(st)
    ensures 0 < |st.picture.components| <= MAX_COMPONENTS
  {
  }

  lemma WrappedOnce(bound: nat)
    requires bound < 2 * TWO_64
    ensures bound % TWO_64 == if bound < TWO_64 then bound else bound - TWO_64
  {
  }

  ghost function Repeated(s: Scan, n: nat): seq<Scan> {
    seq(n, _ => s)
  }

  lemma {:induction false} TotalRepeated(s: Scan, n: nat)
    ensures Total(Repeated(s, n)) == n * s.size
  {
    if n != 0 {
      TotalRepeated(s, n - 1);
      assert Repeated(s, n)[..n - 1] == Repeated(s, n - 1);
      assert n * s.size == (n - 1) * s.size + s.size;
    }
  }

  /** Such lists exist: 4294967275 times the largest scan passes every check, its
      bound wraps, and the region reserved is smaller than the frame. */
  lemma BoundCanWrap(st: JpegState, cs: seq<ScanComponent>, data: seq<Byte>)
    requires WellTyped(st) && PictureOk(st) && |data| == UINT32_MAX
    requires ScanOk(st.picture, Scan(true, cs, 0, UINT32_MAX, 0), |data|)
    ensures var scans := Repeated(Scan(true, cs, 0, UINT32_MAX, 0), SAFE_SCANS + 1);
      && ScansOk(st, scans, |data|) && ScansTyped(scans) && |scans| <= UINT32_MAX
      && BoundOf(st, scans) >= TWO_64
      && InData(scans, data) && Reservation(st, scans) < |Frame(st, scans, data)|
  {
    hide Frame, PictureOk, ScanOk, WellTyped, Total;
    var s := Scan(true, cs, 0, UINT32_MAX, 0);
    var scans := Repeated(s, SAFE_SCANS + 1);
    TotalRepeated(s, SAFE_SCANS + 1);
    ComponentsFew(st);
    assert |scans| == SAFE_SCANS + 1;
    assert forall i :: 0 <= i < |scans| ==> scans[i] == s;
    RegionHoldsFrame(st, scans, data);
  }

  /** A one-pixel picture with one component. */
  ghost function Smallest(): JpegState {
    var table: seq<Byte> := seq(64, _ => 1);
    var none := Huffman(seq(16, _ => 0), seq(12, _ => 0), seq(16, _ => 0), seq(162, _ => 0));
    JpegState(true, true, false, Picture(1, 1, [Component(1, 1, 1, 0)]),
              [table, table, table, table], {0}, [none, none], {}, {})
  }

  /** It meets what BoundCanWrap asks of a picture and a scan. */
  lemma SmallestAccepted()
    ensures WellTyped(Smallest()) && PictureOk(Smallest()) && QuantFilled(Smallest(), 4)
    ensures ScanOk(Smallest().picture, Scan(true, [ScanComponent(1, 0, 0)], 0, UINT32_MAX, 0), UINT32_MAX)
  {
    var st := Smallest();
    assert st.picture.components[0].id == 1;
    assert InFrame(st.picture, 1);
    assert UsedQuant(st.picture) == {0};
    assert st.quant[0][0] == 1;
  }

  /** The picture half of the checks. */
  method CheckPicture(st: JpegState) returns (ok: bool)
    ensures ok <==> PictureOk(st)
  {
    if !st.hasPicture || !st.hasQuant || st.picture.width == 0 || st.picture.height == 0 {
      return false;
    }
    if |st.picture.components| == 0 || |st.picture.components| > MAX_COMPONENTS {
      return false;
    }
    var inRange, used := UsedMask(st.picture);
    return inRange && used <= st.validQuant;
  }

  /** A quantiser table that was sent and is not all zero. */
  ghost predicate QuantSound(st: JpegState, t: nat)
    requires WellTyped(st)
  {
    t < 4 && t in st.validQuant && exists j :: 0 <= j < 64 && st.quant[t][j] != 0
  }

  /** A scan that came whole, lies in the data, and has one to four components of the
      frame with table numbers 0 or 1. */
  ghost predicate ScanSound(cs: seq<Component>, s: Scan, dataSize: nat) {
    && s.whole && s.offset + s.size <= dataSize && 1 <= |s.components| <= 4
    && (forall k :: 0 <= k < |s.components| ==> s.components[k].dc < 2 && s.components[k].ac < 2)
    && (forall k :: 0 <= k < |s.components| ==> exists c :: 0 <= c < |cs| && cs[c].id == s.components[k].selector)
  }

  lemma ScanSoundIsOk(pic: Picture, s: Scan, dataSize: nat)
    ensures ScanOk(pic, s, dataSize) <==> ScanSound(pic.components, s, dataSize)
  {
    if ScanSound(pic.components, s, dataSize) {
      forall k | 0 <= k < |s.components|
        ensures InFrame(pic, s.components[k].selector)
      {
        var c :| 0 <= c < |pic.components| && pic.components[c].id == s.components[k].selector;
      }
    }
    if ScanOk(pic, s, dataSize) {
      forall k | 0 <= k < |s.components|
        ensures exists c :: 0 <= c < |pic.components| && pic.components[c].id == s.components[k].selector
      {
        assert InFrame(pic, s.components[k].selector);
      }
      assert forall k :: 0 <= k < |s.components| ==> s.components[k].dc < 2 && s.components[k].ac < 2;
      assert s.whole && s.offset + s.size <= dataSize && 1 <= |s.components| <= 4;
      assert ScanSound(pic.components, s, dataSize);
    }
  }

  /** Everything a picture and its scans are checked for, in plain fields. */
  lemma AcceptedInPlain(st: JpegState, scans: seq<Scan>, dataSize: nat)
    requires WellTyped(st)
    ensures Accepted(st, scans, dataSize) <==>
      && st.hasPicture && st.hasQuant && 1 <= st.picture.width && 1 <= st.picture.height
      && 1 <= |st.picture.components| <= 4
      && (forall c :: 0 <= c < |st.picture.components| ==> QuantSound(st, st.picture.components[c].quant as nat))
      && scans != []
      && (forall i :: 0 <= i < |scans| ==> ScanSound(st.picture.components, scans[i], dataSize))
  {
    hide ScanOk, ScanSound;
    forall i | 0 <= i < |scans|
      ensures ScanOk(st.picture, scans[i], dataSize) <==> ScanSound(st.picture.components, scans[i], dataSize)
    {
      ScanSoundIsOk(st.picture, scans[i], dataSize);
    }
    var cs := st.picture.components;
    assert forall c :: 0 <= c < |cs| ==> cs[c].quant as nat in UsedQuant(st.picture);
  }

  lemma AcceptedInData(st: JpegState, scans: seq<Scan>, data: seq<Byte>)
    requires ScansOk(st, scans, |data|)
    ensures scans != [] && InData(scans, data)
  {
  }

  /** Appends exactly the frame, or leaves the contents alone; succeeds exactly on
      accepted input for which the bound could be reserved and whose frame keeps
      the bitstream within 32 bits. The frame is written into the reserved region,
      which is `bound` bytes and no more. */
  method Reconstruct(st: JpegState, scans: seq<Scan>, data: seq<Byte>, output: AppendableBuffer<Byte>, granted: bool)
    returns (ok: bool)
    requires WellTyped(st) && !WritesOutside(st, scans, |data|, output.size, output.capacity, granted)
    requires output.Valid() && output.width == 1
    modifies output
    ensures output.Valid()
    ensures ok <==>
      && Accepted(st, scans, |data|)
      && Room(Reservation(st, scans), old(output.size), old(output.capacity), granted)
      && InData(scans, data) && old(output.size) + |Frame(st, scans, data)| <= UINT32_MAX
    ensures ok ==> InData(scans, data) && output.Contents() == old(output.Contents()) + Frame(st, scans, data)
    ensures !ok ==> output.Contents() == old(output.Contents()) && output.size == old(output.size)
    ensures output.failed == (old(output.failed) ||
      (PictureOk(st) && ScansOk(st, scans, |data|) &&
       !Room(Reservation(st, scans), old(output.size), old(output.capacity), granted)))
  {
    hide PictureOk, ScanOk, QuantFilled, RequiredDc, RequiredAc, Frame, InData, WellTyped, CapacityFor, AppendStep, MaxSize;
    ok := CheckPicture(st);
    if !ok || scans == [] {
      return false;
    }
    var total, dc, ac;
    ok, total, dc, ac := CheckScans(st, scans, |data|);
    if !ok {
      return;
    }
    AcceptedInData(st, scans, data);
    var header, restart := CompareScans(scans);
    var bound := MaxSize(|st.picture.components|, |scans|, total) % TWO_64;
    ok := output.ReserveAdditional(bound, granted);
    if !ok {
      return;
    }
    assert Room(Reservation(st, scans), old(output.size), old(output.capacity), granted);
    WrappedOnce(BoundOf(st, scans));
    var frame := new Byte[bound];
    var size;
    ok, size := WriteFrame(frame, st, scans, data, dc, ac, header, restart);
    if !ok {
      return;
    }
    if size > UINT32_MAX || output.size > UINT32_MAX - size {
      return false;
    }
    ok := output.Append(frame[..size], true, false);
  }

  /** Drops the last element, as `size -= sizeof(offset)` does. */
  method TakeBack<T(0)>(b: AppendableBuffer<T>)
    requires b.Valid() && b.count > 0
    modifies b`count, b`size
    ensures b.Valid() && b.Contents() == old(b.Contents())[..old(b.count) - 1]
  {
    assert b.size == (b.count - 1) * b.width + b.width;
    b.count, b.size := b.count - 1, b.size - b.width;
  }

  /** One slice-data buffer. Either both buffers gain their part, the frame and the
      offset at which it starts, or both are back to what they were. */
  method CopySliceData(ctx: SliceAssembly.DecodeContext, codec: Option<JpegState>, scans: seq<Scan>, data: seq<Byte>,
                       offsetGranted: bool, bytesGranted: bool) returns (done: bool)
    requires ctx.Valid()
    requires codec.Some? ==> WellTyped(codec.value)
    requires codec.Some? ==>
      !WritesOutside(codec.value, scans, |data|, ctx.bitstream.size, ctx.bitstream.capacity, bytesGranted)
    modifies ctx, ctx.bitstream, ctx.sliceOffsets
    ensures ctx.Valid()
    ensures done ==>
      && codec.Some? && scans != [] && InData(scans, data)
      && ctx.bitstream.Contents() == old(ctx.bitstream.Contents()) + Frame(codec.value, scans, data)
      && ctx.sliceOffsets.Contents() == old(ctx.sliceOffsets.Contents()) + [old(ctx.bitstream.size)]
      && ctx.numSlices == 1
      && ctx.bitstreamDataLen == |ctx.bitstream.Contents()| <= UINT32_MAX
      && ctx.inputValidationFailed == old(ctx.inputValidationFailed)
    ensures !done ==>
      && ctx.bitstream.Contents() == old(ctx.bitstream.Contents())
      && ctx.sliceOffsets.Contents() == old(ctx.sliceOffsets.Contents())
      && ctx.numSlices == old(ctx.numSlices) && ctx.bitstreamDataLen == old(ctx.bitstreamDataLen)
      && (ctx.inputValidationFailed || ctx.bitstream.failed || ctx.sliceOffsets.failed)
    ensures done <==>
      && codec.Some? && |data| <= UINT32_MAX
      && Accepted(codec.value, scans, |data|)
      && (old(ctx.sliceOffsets.size) + 4 <= old(ctx.sliceOffsets.capacity) ||
          (offsetGranted && old(ctx.sliceOffsets.size) + 4 <= SIZE_MAX))
      && Room(Reservation(codec.value, scans), old(ctx.bitstream.size), old(ctx.bitstream.capacity), bytesGranted)
      && InData(scans, data) && old(ctx.bitstream.size) + |Frame(codec.value, scans, data)| <= UINT32_MAX
  {
    hide PictureOk, ScanOk, QuantFilled, Frame, InData, AppendStep;
    if codec.None? {
      if !ctx.bitstream.failed {
        ctx.inputValidationFailed := true;
      }
      return false;
    }
    if scans == [] || |data| > UINT32_MAX || ctx.bitstream.size > UINT32_MAX {
      ctx.inputValidationFailed := true;
      return false;
    }
    var offset := ctx.bitstream.size;
    done := ctx.sliceOffsets.Append([offset], true, offsetGranted);
    if !done {
      return;
    }
    done := Reconstruct(codec.value, scans, data, ctx.bitstream, bytesGranted);
    if !done {
      TakeBack(ctx.sliceOffsets);
      if !ctx.bitstream.failed {
        ctx.inputValidationFailed := true;
      }
      return;
    }
    ctx.numSlices := 1;
    var _ := ctx.Commit();
  }
}
