/** Tile parameters before slice data, or after it (src/av1.c:669-709): the same
    records over the same buffer give the same picture, except when a record
    behind a complete set of tiles is refused. */
module Av1Arrivals {
  import opened Basics
  import opened AppendableBuffers
  import opened IntervalTrees
  import opened IntervalIndexes
  import opened Av1Obu
  import opened Av1Units
  import opened Av1Tiles
  import opened Av1Contexts
  import opened Av1Orders

  /** The tiles fill the layout and the data in front of them can be dropped. */
  ghost predicate CanFire(l: Layout, tiles: Tiles, data: seq<Byte>) {
    && tiles != map[] && |tiles| == TileCount(l)
    && exists lo, hi :: ExtremesAgree(tiles, lo, hi) && Fires(data, lo, hi)
  }

  ghost function Outcome(l: Layout, params: seq<TileParam>, buf: seq<Byte>): (Tiles, bool) {
    RegisterBatch(l, map[], Requests(params, 0, |buf|))
  }

  /** The records complete the picture, one behind that is refused, and
      compaction would fire. */
  ghost predicate LateRejection(l: Layout, params: seq<TileParam>, buf: seq<Byte>) {
    var (tiles, all) := Outcome(l, params, buf);
    !all && CanFire(l, tiles, buf)
  }

  lemma FiresMeansCanFire(c: Av1Context)
    requires c.Valid() && c.tiles != map[] && |c.tiles| == c.numSlices
    ensures Fires(c.data, c.minOffset, c.maxEnd) == CanFire(c.layout, c.tiles, c.data)
  {
    hide IntervalIndex.Valid, Intervals, Fires, TileCount, DataKept, StartKept;
    hide TilesOk, BitmapAgrees, OffsetsAgree, RestClear, ExtremesAgree;
    forall lo, hi | ExtremesAgree(c.tiles, lo, hi)
      ensures lo == c.minOffset && hi == c.maxEnd
    {
      SameExtremes(c.tiles, lo, hi, c.minOffset, c.maxEnd);
    }
  }

  lemma OnlyFullPicturesFire(c: Av1Context)
    requires c.Valid() && !(c.tiles != map[] && |c.tiles| == c.numSlices)
    ensures !CanFire(c.layout, c.tiles, c.data) && !c.compacted
  {
    hide IntervalIndex.Valid, Intervals, Fires, TileCount, StartKept, ViewsAgree;
  }

  /** Parameters first. */
  method ParametersFirst(c: Av1Context, params: seq<TileParam>, buf: seq<Byte>)
    requires c.Valid() && Fresh(c) && c.data == [] && TileCount(c.layout) <= MAX_TILES && params != []
    modifies c, c.intervals, c.intervals.storage
    ensures Settled(c, old(c.layout), params, buf)
    ensures c.compacted == (|buf| <= UINT32_MAX && CanFire(c.layout, c.tiles, c.data))
  {
    hide IntervalIndex.Valid, Intervals, ViewsAgree, DataKept, StartKept, SlicesOk, Fires, TileCount;
    hide RegisterBatch, Requests, CanFire;
    OnlyFullPicturesFire(c);
    CountMatches(c);
    var _, _ := c.CopySliceParam(params, true, true, Yes(|params|));
    var _ := c.CopySliceData(buf, true, Yes(|params|), true);
    assert [] + buf == buf;
    if c.tiles != map[] && |c.tiles| == c.numSlices {
      FiresMeansCanFire(c);
    } else {
      OnlyFullPicturesFire(c);
    }
  }

  /** Data first. */
  method DataFirst(c: Av1Context, params: seq<TileParam>, buf: seq<Byte>)
    requires c.Valid() && Fresh(c) && c.data == [] && TileCount(c.layout) <= MAX_TILES && params != []
    requires c.lastParams == [] && buf != []
    modifies c, c.intervals, c.intervals.storage
    ensures Settled(c, old(c.layout), params, buf)
    ensures c.compacted ==
      (|buf| <= UINT32_MAX && Outcome(c.layout, params, buf).1 && CanFire(c.layout, c.tiles, c.data))
  {
    hide IntervalIndex.Valid, Intervals, ViewsAgree, DataKept, StartKept, SlicesOk, Fires, TileCount;
    hide RegisterBatch, Requests, CanFire;
    OnlyFullPicturesFire(c);
    CountMatches(c);
    NoRecords(c.layout, |buf|);
    var _ := c.CopySliceData(buf, true, [], true);
    assert [] + buf == buf;
    CountMatches(c);
    var all, _ := c.CopySliceParam(params, true, true, Yes(|params|));
    if c.tiles != map[] && |c.tiles| == c.numSlices {
      FiresMeansCanFire(c);
    } else {
      OnlyFullPicturesFire(c);
    }
  }

  lemma NoRecords(l: Layout, n: nat)
    ensures Requests([], 0, n) == [] && RegisterBatch(l, map[], []) == (map[], true)
  {
  }

  /** What either way of arrival leaves, up to compaction. */
  ghost predicate Settled(c: Av1Context, l: Layout, params: seq<TileParam>, buf: seq<Byte>)
    reads c, c.intervals, c.intervals.storage
  {
    && c.Valid() && c.layout == l
    && (if |buf| <= UINT32_MAX
        then c.data == buf && c.tiles == Outcome(l, params, buf).0 && c.numSlices == Counted(l, |params|) &&
             |c.offsets| == TableLength(c.numSlices)
        else c.data == [] && c.tiles == map[] && c.numSlices == TileCount(l) && |c.offsets| == 0)
  }

  ghost function Counted(l: Layout, records: nat): nat {
    if TileCount(l) == 0 then records else TileCount(l)
  }

  ghost function TableLength(numSlices: nat): nat {
    if numSlices <= MAX_TILES then 2 * numSlices else 0
  }

  /** One picture that gets its parameters first and one that gets its data first
      end with the same tiles, offset table, start and size, unless a record is
      refused behind a complete set of tiles: then parameters first compacts and
      data first does not. */
  method BothArrivals(c: Av1Context, d: Av1Context, params: seq<TileParam>, buf: seq<Byte>)
    requires c.Valid() && d.Valid() && Fresh(c) && Fresh(d) && c.data == d.data == [] && d.lastParams == []
    requires c.layout == d.layout && TileCount(c.layout) <= MAX_TILES && params != [] && buf != []
    requires c != d && c.intervals != d.intervals && c.intervals.storage != d.intervals.storage
    modifies c, c.intervals, c.intervals.storage, d, d.intervals, d.intervals.storage
    ensures c.Valid() && d.Valid() && c.layout == d.layout == old(c.layout)
    ensures c.tiles == d.tiles && c.data == d.data && c.minOffset == d.minOffset && c.maxEnd == d.maxEnd
    ensures |buf| <= UINT32_MAX ==> c.data == buf && c.tiles == Outcome(c.layout, params, buf).0
    ensures c.compacted == d.compacted <==> |buf| > UINT32_MAX || !LateRejection(c.layout, params, buf)
    ensures c.compacted == d.compacted ==>
      c.dataOffset == d.dataOffset && c.size == d.size && c.offsets == d.offsets
    ensures c.compacted != d.compacted ==>
      c.compacted && 0 < c.dataOffset && d.dataOffset == 0 && c.size < d.size == |buf|
  {
    hide IntervalIndex.Valid, Intervals, ViewsAgree, DataKept, StartKept, SlicesOk, Fires, TileCount;
    hide Outcome, CanFire;
    ParametersFirst(c, params, buf);
    DataFirst(d, params, buf);
    SameArrival(c, d);
  }

  lemma SameArrival(c: Av1Context, d: Av1Context)
    requires c.Valid() && d.Valid() && c.layout == d.layout && c.numSlices == d.numSlices
    requires c.tiles == d.tiles && c.data == d.data && |c.offsets| == |d.offsets| && (d.compacted ==> c.compacted)
    ensures c.minOffset == d.minOffset && c.maxEnd == d.maxEnd
    ensures c.compacted == d.compacted ==> c.dataOffset == d.dataOffset && c.size == d.size && c.offsets == d.offsets
    ensures c.compacted != d.compacted ==> 0 < c.dataOffset && d.dataOffset == 0 && c.size < d.size == |c.data|
  {
    hide IntervalIndex.Valid, Intervals, ViewsAgree, SlicesOk, Framed, Fires;
    SameTilesSameViews(c.Snapshot(), d.Snapshot(), c.tiles);
    StartNotZero(c.data, c.minOffset, c.maxEnd);
  }

  lemma StartNotZero(data: seq<Byte>, lo: nat, hi: nat)
    ensures Fires(data, lo, hi) ==> 0 < StartFor(data, lo) && hi <= |data|
  {
  }

  // -------------------------------------------------------------- an input

  const DELIMITER: Unit := Unit(false, 2, None, false, [])
  const ONE_TILE_FRAME: Unit := Unit(false, 6, None, false, [0])

  /** A temporal delimiter and a frame with one tile byte; the tile is submitted
      twice, and the second record is refused. */
  lemma LateRejectionHappens()
    ensures var buf := Av1Units.EncodeAll([DELIMITER, ONE_TILE_FRAME]);
      var p := TileParam(0, 0, 4, 1);
      |buf| == 5 && LateRejection(Layout(1, 1), [p, p], buf)
  {
    hide Av1Units.EncodeAll, RegisterBatch, Requests, StartFor;
    var buf, tiles := Av1Units.EncodeAll([DELIMITER, ONE_TILE_FRAME]), map[0 := Interval(4, 5)];
    TileLocated();
    TwiceRegistered();
    OneTileExtremes(tiles);
    assert Fires(buf, 4, 5);
  }

  lemma OneTileExtremes(tiles: Tiles)
    requires tiles == map[0 := Interval(4, 5)]
    ensures ExtremesAgree(tiles, 4, 5)
  {
    assert tiles[0] == Interval(4, 5);
  }

  lemma {:induction false} TwoUnits(a: Unit, b: Unit)
    requires a.kind < KINDS && b.kind < KINDS
    ensures Av1Units.EncodeAll([a]) == Av1Units.Encode(a)
    ensures Av1Units.EncodeAll([a, b]) == Av1Units.Encode(a) + Av1Units.Encode(b)
  {
    hide Av1Units.Encode;
    assert [a, b][1..] == [b] && [a][1..] == [] && [b][1..] == [];
    assert Av1Units.EncodeAll([b]) == Av1Units.Encode(b) + [];
  }

  lemma UnitLengths()
    ensures Av1Units.Encode(DELIMITER) == [0x12, 0] && Av1Units.Encode(ONE_TILE_FRAME) == [0x32, 1, 0]
  {
  }

  lemma TileLocated()
    ensures var buf := Av1Units.EncodeAll([DELIMITER, ONE_TILE_FRAME]);
      |buf| == 5 && StartFor(buf, 4) == 2
  {
    hide Av1Units.EncodeAll, Av1Units.Encode, StartFor;
    var units := [DELIMITER, ONE_TILE_FRAME];
    TwoUnits(DELIMITER, ONE_TILE_FRAME);
    UnitLengths();
    assert units[..1] == [DELIMITER] && units[..0] == [];
    TileUnitFound(units, 1, 4);
  }

  lemma TwiceRegistered()
    ensures var p := TileParam(0, 0, 4, 1);
      RegisterBatch(Layout(1, 1), map[], Requests([p, p], 0, 5)) == (map[0 := Interval(4, 5)], false)
  {
    var p, l, tiles := TileParam(0, 0, 4, 1), Layout(1, 1), map[0 := Interval(4, 5)];
    var r := RequestOf(p, 0, 5);
    assert Requests([p, p], 0, 5) == [r, r];
    SecondRefused(l, r, tiles);
  }

  /** A record submitted twice: the second is refused. */
  lemma SecondRefused(l: Layout, r: Request, tiles: Tiles)
    requires WellPlaced(l, r) && tiles == map[TileIndex(l, r) := TileRange(r)]
    ensures RegisterBatch(l, map[], [r, r]) == (tiles, false)
  {
    hide RegisterBatch, WellPlaced;
    assert Acceptable(l, map[], r) && Registered(l, map[], r) == tiles && !Acceptable(l, tiles, r);
    hide Acceptable;
    assert [r, r][1..] == [r];
    BatchStep(l, map[], [r, r]);
    BatchStep(l, tiles, [r]);
  }

  lemma BatchStep(l: Layout, tiles: Tiles, batch: seq<Request>)
    requires batch != []
    ensures RegisterBatch(l, tiles, batch) ==
      if Acceptable(l, tiles, batch[0]) then RegisterBatch(l, Registered(l, tiles, batch[0]), batch[1..]) else (tiles, false)
  {
  }
}
