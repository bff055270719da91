/** Every scan of a finished frame, and the restart interval in force at it
    (src/jpeg.c:562-588). A restart interval stays in force until the next one is
    defined (section B.2.4.4 of ITU-T T.81), and none is written for a scan
    without one. */
module JpegScans {
  import opened Basics
  import opened AppendableBuffers
  import opened JpegSegments
  import opened JpegTables
  import opened JpegFrames
  import opened JpegReaders

  // ---------------------------------------------------- where the scans stand

  /** The bytes in front of the head of scan `i`, when scans have heads of their own. */
  ghost function BeforeHead(st: JpegState, scans: seq<Scan>, data: seq<Byte>, i: nat): seq<Byte>
    requires WellTyped(st) && scans != [] && InData(scans, data) && i <= |scans|
  {
    [MARKER, SOI] + EncodeAll(Prelude(st, scans)) + Separate(scans[..i], data, !SameRestart(scans))
  }

  lemma {:induction false} SeparateSplits(scans: seq<Scan>, data: seq<Byte>, per: bool, i: nat) returns (rest: seq<Byte>)
    requires InData(scans, data) && i < |scans|
    ensures Separate(scans, data, per) ==
      Separate(scans[..i], data, per) + (EncodeAll(ScanHead(scans[i], per)) + Slice(data, scans[i])) + rest
    decreases |scans|
  {
    hide EncodeAll, ScanHead, Slice;
    var n := |scans| - 1;
    var last := EncodeAll(ScanHead(scans[n], per)) + Slice(data, scans[n]);
    if i == n {
      rest := [];
    } else {
      var more := SeparateSplits(scans[..n], data, per, i);
      assert scans[..n][..i] == scans[..i];
      rest := more + last;
      Assoc(Separate(scans[..i], data, per) + (EncodeAll(ScanHead(scans[i], per)) + Slice(data, scans[i])), more, last);
    }
  }

  lemma SeparateNext(scans: seq<Scan>, data: seq<Byte>, per: bool, i: nat)
    requires InData(scans, data) && i < |scans|
    ensures |Separate(scans[..i + 1], data, per)| ==
      |Separate(scans[..i], data, per)| + |EncodeAll(ScanHead(scans[i], per))| + scans[i].size
  {
    hide EncodeAll, ScanHead;
    assert scans[..i + 1][..i] == scans[..i];
  }

  lemma ScanHeadWalkable(s: Scan, per: bool)
    requires |s.components| <= MAX_COMPONENTS
    ensures Walkable(ScanHead(s, per))
  {
  }

  lemma Regroup<T>(a: seq<T>, b: seq<T>, c: seq<T>, d: seq<T>, e: seq<T>, f: seq<T>)
    ensures (a + (b + (c + d) + e)) + f == (a + b) + c + (d + (e + f))
    ensures |a + b + c| == |a| + |b| + |c|
    ensures ((a + b) + c + (d + (e + f)))[|a + b + c|..|a + b + c| + |d|] == d
  {
    var all := (a + b) + c + (d + (e + f));
    assert all == (a + b + c) + d + (e + f);
  }

  /** What closing adds. */
  function Closing(bytes: seq<Byte>): (r: seq<Byte>)
    ensures Closed(bytes) == bytes + r
  {
    if |bytes| >= 2 && bytes[|bytes| - 2..] == [MARKER, EOI] then assert bytes + [] == bytes; [] else [MARKER, EOI]
  }

  /** A walk from `at` finds `head`, and `body` stands behind it. */
  ghost predicate HeadThenData(frame: seq<Byte>, at: nat, head: seq<Segment>, body: seq<Byte>) {
    var start := at + |EncodeAll(head)|;
    && Walk(frame, at) == Some(Walked(head, start))
    && start + |body| <= |frame| && frame[start..start + |body|] == body
  }

  lemma ScanStands(st: JpegState, scans: seq<Scan>, data: seq<Byte>, i: nat)
    requires WellTyped(st) && scans != [] && InData(scans, data) && i < |scans| && !SameHeader(scans)
    ensures HeadThenData(Frame(st, scans, data), |BeforeHead(st, scans, data, i)|,
                         ScanHead(scans[i], !SameRestart(scans)), Slice(data, scans[i]))
    ensures |BeforeHead(st, scans, data, i + 1)| ==
      |BeforeHead(st, scans, data, i)| + |EncodeAll(ScanHead(scans[i], !SameRestart(scans)))| + scans[i].size
  {
    hide EncodeAll, ScanHead, Slice, Prelude, WellTyped, SameRestart, SameHeader, Closed, HeadThenData, Frame;
    var per := !SameRestart(scans);
    var front, head, body := [MARKER, SOI] + EncodeAll(Prelude(st, scans)), ScanHead(scans[i], per), Slice(data, scans[i]);
    var rest := SeparateSplits(scans, data, per, i);
    SeparateNext(scans, data, per, i);
    FrameApart(st, scans, data);
    hide Separate;
    ScanHeadWalkable(scans[i], per);
    Stands(front, Separate(scans[..i], data, per), head, body, rest, Closing(Unclosed(st, scans, data)));
  }

  /** With headers of their own: behind what the scans before it take, a reader
      finds the head of scan `i` and then the bytes that the client gave for it, up
      to the next head. */
  lemma ScanFound(st: JpegState, scans: seq<Scan>, data: seq<Byte>, i: nat)
    requires WellTyped(st) && scans != [] && InData(scans, data) && i < |scans| && !SameHeader(scans)
    ensures HeadThenData(Frame(st, scans, data), |BeforeHead(st, scans, data, i)|,
                         ScanHead(scans[i], !SameRestart(scans)),
                         data[scans[i].offset..scans[i].offset + scans[i].size])
    ensures |BeforeHead(st, scans, data, i + 1)| ==
      |BeforeHead(st, scans, data, i)| + |EncodeAll(ScanHead(scans[i], !SameRestart(scans)))| + scans[i].size
  {
    hide EncodeAll, ScanHead, Slice, Prelude, WellTyped, SameRestart, SameHeader, HeadThenData, Frame, BeforeHead;
    ScanStands(st, scans, data, i);
    SliceIs(data, scans[i]);
  }

  lemma Stands(a: seq<Byte>, b: seq<Byte>, head: seq<Segment>, body: seq<Byte>, c: seq<Byte>, d: seq<Byte>)
    requires Walkable(head)
    ensures HeadThenData((a + (b + (EncodeAll(head) + body) + c)) + d, |a + b|, head, body)
  {
    hide Walk, EncodeAll, Walkable;
    Regroup(a, b, EncodeAll(head), body, c, d);
    WalkInverts(a + b, head, body + (c + d));
  }

  lemma SliceIs(data: seq<Byte>, s: Scan)
    requires s.offset + s.size <= |data|
    ensures Slice(data, s) == data[s.offset..s.offset + s.size]
  {
  }

  // -------------------------------------------------- scans under one header

  lemma {:induction false} ScanDataSplits(scans: seq<Scan>, data: seq<Byte>, i: nat) returns (rest: seq<Byte>)
    requires InData(scans, data) && i < |scans|
    ensures ScanData(scans, data) == ScanData(scans[..i], data) + Slice(data, scans[i]) + rest
    decreases |scans|
  {
    hide Slice;
    var n := |scans| - 1;
    if i == n {
      rest := [];
    } else {
      var more := ScanDataSplits(scans[..n], data, i);
      assert scans[..n][..i] == scans[..i];
      rest := more + Slice(data, scans[n]);
      Assoc(ScanData(scans[..i], data) + Slice(data, scans[i]), more, Slice(data, scans[n]));
    }
  }

  lemma FrameTogether(st: JpegState, scans: seq<Scan>, data: seq<Byte>)
    requires WellTyped(st) && scans != [] && InData(scans, data) && SameHeader(scans)
    ensures Frame(st, scans, data) ==
      ([MARKER, SOI] + EncodeAll(Prelude(st, scans)) +
        (EncodeAll([ScanSegment(scans[0].components)]) + ScanData(scans, data))) + Closing(Unclosed(st, scans, data))
  {
    hide EncodeAll, Prelude, ScanData, SameRestart, SameHeader, WellTyped, Closed, ScanSegment;
  }

  ghost predicate DataAt(frame: seq<Byte>, at: nat, bytes: seq<Byte>) {
    at + |bytes| <= |frame| && frame[at..at + |bytes|] == bytes
  }

  lemma JoinedStands(st: JpegState, scans: seq<Scan>, data: seq<Byte>, i: nat)
    requires WellTyped(st) && InData(scans, data) && i < |scans| && SameHeader(scans)
    ensures DataAt(Frame(st, scans, data),
                   2 + |EncodeAll(Prelude(st, scans))| + |EncodeAll([ScanSegment(scans[0].components)])| + Total(scans[..i]),
                   Slice(data, scans[i]))
  {
    hide EncodeAll, Slice, Prelude, WellTyped, SameRestart, SameHeader, Closed, Frame, ScanSegment;
    FrameTogether(st, scans, data);
    var rest := ScanDataSplits(scans, data, i);
    var before := ScanData(scans[..i], data);
    assert |before| == Total(scans[..i]);
    hide ScanData, Total;
    BodyAt([MARKER, SOI], EncodeAll(Prelude(st, scans)), EncodeAll([ScanSegment(scans[0].components)]),
           before, Slice(data, scans[i]), rest, Closing(Unclosed(st, scans, data)));
  }

  lemma JoinedHead(st: JpegState, scans: seq<Scan>)
    requires WellTyped(st) && scans != [] && |scans[0].components| <= MAX_COMPONENTS && SameHeader(scans)
    ensures |EncodeAll(Plan(st, scans))| ==
      |EncodeAll(Prelude(st, scans))| + |EncodeAll([ScanSegment(scans[0].components)])|
  {
    hide EncodeAll, Prelude, WellTyped, SameHeader, ScanSegment;
    EncodeAllJoins(Prelude(st, scans), [ScanSegment(scans[0].components)]);
  }

  /** The one header is the header of each of the scans. */
  lemma JoinedHeader(st: JpegState, scans: seq<Scan>, i: nat)
    requires WellTyped(st) && i < |scans| && |scans[0].components| <= MAX_COMPONENTS && SameHeader(scans)
    ensures Plan(st, scans) != [] && |scans[i].components| <= MAX_COMPONENTS
    ensures Plan(st, scans)[|Plan(st, scans)| - 1] == ScanSegment(scans[i].components)
  {
    hide Prelude, WellTyped, ScanSegment;
  }

  /** The head of a scan says the scan's own components. */
  lemma HeadSays(s: Scan, per: bool)
    requires |s.components| <= MAX_COMPONENTS
    requires forall i :: 0 <= i < |s.components| ==> s.components[i].dc < 16 && s.components[i].ac < 16
    ensures var head := ScanHead(s, per);
      head != [] && ParseScan(head[|head| - 1]) == Some(s.components) && ParseScan(ScanSegment(s.components)) == Some(s.components)
  {
    hide ParseScan, ScanSegment, RestartSegment;
    ScanParses(s.components);
  }

  /** With one header for all scans: the walk ends behind it, and there stand the
      bytes that the client gave for each scan, in turn and with nothing between. */
  lemma JoinedScanFound(st: JpegState, scans: seq<Scan>, data: seq<Byte>, i: nat)
    requires WellTyped(st) && InData(scans, data) && i < |scans| && SameHeader(scans)
    ensures Walk(Frame(st, scans, data), 2) == Some(Walked(Plan(st, scans), 2 + |EncodeAll(Plan(st, scans))|))
    ensures DataAt(Frame(st, scans, data), 2 + |EncodeAll(Plan(st, scans))| + Total(scans[..i]),
                   data[scans[i].offset..scans[i].offset + scans[i].size])
  {
    hide EncodeAll, Slice, Prelude, WellTyped, SameRestart, SameHeader, Frame, Plan, Walk, ScanSegment, DataAt, Total;
    SliceIs(data, scans[i]);
    FrameWalks(st, scans, data);
    JoinedHead(st, scans);
    JoinedStands(st, scans, data, i);
  }

  lemma BodyAt<T>(a: seq<T>, b: seq<T>, c: seq<T>, d: seq<T>, body: seq<T>, e: seq<T>, f: seq<T>)
    ensures var all := (a + b + (c + (d + body + e))) + f;
      var at := |a| + |b| + |c| + |d|;
      at + |body| <= |all| && all[at..at + |body|] == body
  {
    var all := (a + b + (c + (d + body + e))) + f;
    assert all == (a + b + c + d) + body + (e + f);
  }

  lemma FrameApart(st: JpegState, scans: seq<Scan>, data: seq<Byte>)
    requires WellTyped(st) && scans != [] && InData(scans, data) && !SameHeader(scans)
    ensures Frame(st, scans, data) ==
      ([MARKER, SOI] + EncodeAll(Prelude(st, scans)) + Separate(scans, data, !SameRestart(scans))) + Closing(Unclosed(st, scans, data))
  {
    hide EncodeAll, Prelude, Separate, SameRestart, SameHeader, WellTyped, Closed;
  }

  // ------------------------------------------------------- restart intervals

  /** The interval in force behind some segments: the last one defined, or none. */
  function InForce(segs: seq<Segment>): nat {
    if segs == [] then 0
    else
      match ParseRestart(segs[|segs| - 1])
      case Some(n) => n
      case None => InForce(segs[..|segs| - 1])
  }

  ghost predicate NoRestart(segs: seq<Segment>) {
    forall i :: 0 <= i < |segs| ==> segs[i].marker != DRI
  }

  lemma {:induction false} InForceSkips(a: seq<Segment>, b: seq<Segment>)
    requires NoRestart(b)
    ensures InForce(a + b) == InForce(a)
    decreases |b|
  {
    if b == [] {
      assert a + b == a;
    } else {
      var n := |b| - 1;
      InForceSkips(a, b[..n]);
      assert (a + b)[..|a| + n] == a + b[..n];
    }
  }

  lemma InForceTakes(a: seq<Segment>, interval: nat)
    requires interval < 0x1_0000
    ensures InForce(a + [RestartSegment(interval)]) == interval
  {
    hide Be16, FromBe16;
    Be16RoundTrip(interval);
  }

  lemma {:induction false} QuantNoRestart(st: JpegState, k: nat)
    requires WellTyped(st) && k <= 4
    ensures NoRestart(QuantSegments(st, k))
  {
    if k != 0 {
      QuantNoRestart(st, k - 1);
    }
  }

  lemma HuffmanNoRestart(st: JpegState, dc: set<nat>, ac: set<nat>)
    requires WellTyped(st)
    ensures NoRestart(HuffmanSegments(st, dc, ac))
  {
    hide VaSegmentsOf, Standard, NoRestart;
    StandardNoRestart();
    if UsesVa(st, dc, ac) {
      VaNoRestart(st, dc, ac, 0);
      VaNoRestart(st, dc, ac, 1);
      NoRestartJoins(VaSegmentsOf(st, dc, ac, 0), VaSegmentsOf(st, dc, ac, 1));
    }
  }

  lemma StandardNoRestart()
    ensures NoRestart(Standard())
  {
  }

  lemma VaNoRestart(st: JpegState, dc: set<nat>, ac: set<nat>, t: nat)
    requires WellTyped(st) && t < 2 && VaTableOk(st, dc, ac, t)
    ensures NoRestart(VaSegmentsOf(st, dc, ac, t))
  {
  }

  lemma NoRestartJoins(a: seq<Segment>, b: seq<Segment>)
    requires NoRestart(a) && NoRestart(b)
    ensures NoRestart(a + b)
  {
  }

  /** Before the scans: the common interval, when there is one. */
  lemma InForceBefore(st: JpegState, scans: seq<Scan>)
    requires WellTyped(st) && scans != [] && scans[0].restart < 0x1_0000
    ensures InForce(Prelude(st, scans)) == if SameRestart(scans) then scans[0].restart else 0
  {
    hide QuantSegments, HuffmanSegments, FrameSegment, RestartSegment, RequiredDc, RequiredAc, SameRestart, InForce;
    var dc, ac := RequiredDc(scans), RequiredAc(scans);
    var front := [Segment(APP0, JFIF_PAYLOAD)] + QuantSegments(st, 4) + [FrameSegment(st.picture)] + HuffmanSegments(st, dc, ac);
    QuantNoRestart(st, 4);
    HuffmanNoRestart(st, dc, ac);
    FrameNoRestart(st.picture);
    assert NoRestart(front);
    InForceSkips([], front);
    NothingInForce();
    assert [] + front == front;
    InForceTakes(front, scans[0].restart);
    assert front + [] == front;
  }

  lemma FrameNoRestart(pic: Picture)
    requires |pic.components| < 256
    ensures FrameSegment(pic).marker != DRI
  {
  }

  lemma NothingInForce()
    ensures InForce([]) == 0
  {
  }

  /** Components and intervals fit the fields they are written to. */
  ghost predicate HeadsFit(scans: seq<Scan>) {
    forall i :: 0 <= i < |scans| ==> |scans[i].components| <= MAX_COMPONENTS && scans[i].restart < 0x1_0000
  }

  /** The heads of the first scans, one after another. */
  ghost function Heads(scans: seq<Scan>, per: bool): seq<Segment>
    requires HeadsFit(scans)
  {
    if scans == [] then [] else Heads(scans[..|scans| - 1], per) + ScanHead(scans[|scans| - 1], per)
  }

  /** The last interval among `scans` that is not zero. */
  function LastInterval(scans: seq<Scan>): nat {
    if scans == [] then 0
    else if scans[|scans| - 1].restart != 0 then scans[|scans| - 1].restart
    else LastInterval(scans[..|scans| - 1])
  }

  lemma OneHeadInForce(a: seq<Segment>, s: Scan, per: bool)
    requires |s.components| <= MAX_COMPONENTS && s.restart < 0x1_0000
    ensures InForce(a + ScanHead(s, per)) == if per && s.restart != 0 then s.restart else InForce(a)
  {
    hide InForce, RestartSegment;
    var sos := [ScanSegment(s.components)];
    var front := if per && s.restart != 0 then a + [RestartSegment(s.restart)] else a;
    assert a + ScanHead(s, per) == front + sos;
    InForceSkips(front, sos);
    InForceTakes(a, s.restart);
  }

  lemma {:induction false} HeadsInForce(a: seq<Segment>, scans: seq<Scan>, per: bool)
    requires HeadsFit(scans)
    ensures InForce(a + Heads(scans, per)) ==
      if per && LastInterval(scans) != 0 then LastInterval(scans) else InForce(a)
    decreases |scans|
  {
    hide InForce, ScanHead;
    if scans == [] {
      assert a + Heads(scans, per) == a;
    } else {
      var n := |scans| - 1;
      HeadsInForce(a, scans[..n], per);
      OneHeadInForce(a + Heads(scans[..n], per), scans[n], per);
      Assoc(a, Heads(scans[..n], per), ScanHead(scans[n], per));
    }
  }

  lemma {:induction false} LastIntervalIs(scans: seq<Scan>)
    requires scans != []
    ensures LastInterval(scans) == scans[|scans| - 1].restart <==>
      (scans[|scans| - 1].restart == 0 ==> forall j :: 0 <= j < |scans| ==> scans[j].restart == 0)
  {
    LastIntervalZero(scans);
  }

  lemma {:induction false} LastIntervalZero(scans: seq<Scan>)
    ensures LastInterval(scans) == 0 <==> forall j :: 0 <= j < |scans| ==> scans[j].restart == 0
  {
    if scans != [] {
      LastIntervalZero(scans[..|scans| - 1]);
    }
  }

  /** The heads in front of the data of scan `i`; scans with one header between
      them share it. */
  ghost function HeadsBefore(scans: seq<Scan>, i: nat): seq<Segment>
    requires i < |scans| && HeadsFit(scans)
  {
    if SameHeader(scans) then [ScanSegment(scans[0].components)] else Heads(scans[..i + 1], !SameRestart(scans))
  }

  /** Every segment that is written in front of the data of scan `i`. */
  ghost function SegmentsBefore(st: JpegState, scans: seq<Scan>, i: nat): seq<Segment>
    requires WellTyped(st) && i < |scans| && HeadsFit(scans)
  {
    Prelude(st, scans) + HeadsBefore(scans, i)
  }

  /** What the interval in force at scan `i` may differ on. */
  ghost predicate OwnInterval(scans: seq<Scan>, i: nat)
    requires i < |scans|
  {
    || SameRestart(scans)
    || (if SameHeader(scans) then scans[i].restart == 0
        else forall j :: 0 <= j < i ==> (scans[j].restart != 0 ==> scans[i].restart != 0))
  }

  /** A decoder uses the client's interval for scan `i` exactly when all intervals
      agree, or when the headers differ and no earlier scan left one behind that
      this scan would have to switch off. */
  lemma RestartInForce(st: JpegState, scans: seq<Scan>, i: nat)
    requires WellTyped(st) && i < |scans|
    requires HeadsFit(scans)
    ensures InForce(SegmentsBefore(st, scans, i)) == scans[i].restart <==> OwnInterval(scans, i)
  {
    hide InForce, Prelude, WellTyped;
    InForceBefore(st, scans);
    if SameHeader(scans) {
      InForceSkips(Prelude(st, scans), [ScanSegment(scans[0].components)]);
    } else {
      var some := scans[..i + 1];
      HeadsInForce(Prelude(st, scans), some, !SameRestart(scans));
      LastIntervalIs(some);
      LastIntervalZero(some);
      assert forall j :: 0 <= j <= i ==> some[j] == scans[j];
    }
  }

  /** So every scan is decoded with its own interval exactly when the intervals
      agree, or the headers differ and no scan without one follows a scan with one. */
  lemma AllRestartsInForce(st: JpegState, scans: seq<Scan>)
    requires WellTyped(st) && scans != []
    requires HeadsFit(scans)
    ensures (forall i :: 0 <= i < |scans| ==> InForce(SegmentsBefore(st, scans, i)) == scans[i].restart) <==>
      SameRestart(scans) ||
      (!SameHeader(scans) && forall i, j :: 0 <= j < i < |scans| && scans[j].restart != 0 ==> scans[i].restart != 0)
  {
    hide InForce, SegmentsBefore, WellTyped, SameHeader;
    forall i | 0 <= i < |scans|
      ensures InForce(SegmentsBefore(st, scans, i)) == scans[i].restart <==> OwnInterval(scans, i)
    {
      RestartInForce(st, scans, i);
    }
  }

  const ONE_HEADER: seq<ScanComponent> := [ScanComponent(1, 0, 0)]
  const OTHER_HEADER: seq<ScanComponent> := [ScanComponent(1, 1, 0)]

  /** An interval of 4, then none; under two headers or under one. */
  ghost function ThenNone(second: seq<ScanComponent>): (r: seq<Scan>)
    requires |second| == 1
    ensures |r| == 2 && r[0].restart == 4 && r[1].restart == 0 && HeadsFit(r)
  {
    [Scan(true, ONE_HEADER, 0, 1, 4), Scan(true, second, 0, 1, 0)]
  }

  /** Under two headers the earlier interval is still in force at the second scan.
      Under one, the first scan's interval is never written. Both lists are accepted. */
  lemma RestartLost(st: JpegState)
    requires WellTyped(st) && InFrame(st.picture, 1)
    ensures ScansOk(st, ThenNone(OTHER_HEADER), 1) && ScansOk(st, ThenNone(ONE_HEADER), 1)
    ensures InForce(SegmentsBefore(st, ThenNone(OTHER_HEADER), 1)) != 0
    ensures InForce(SegmentsBefore(st, ThenNone(ONE_HEADER), 0)) != 4
  {
    hide InForce, SegmentsBefore, WellTyped;
    var apart, joined := ThenNone(OTHER_HEADER), ThenNone(ONE_HEADER);
    RestartInForce(st, apart, 1);
    RestartInForce(st, joined, 0);
    assert OTHER_HEADER[0] != ONE_HEADER[0];
    assert apart[1].components != apart[0].components;
    assert SameHeader(joined);
  }
}
