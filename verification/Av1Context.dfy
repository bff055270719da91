/** Registering AV1 tiles and compacting their bitstream in a decode context
    (src/av1.c:115-145, 266-275, 526-709). */
module Av1Contexts {
  import opened Basics
  import opened AppendableBuffers
  import opened FiniteSets
  import opened IntervalTrees
  import opened IntervalIndexes
  import opened Av1Obu
  import opened Av1Tiles

  const MAX_TILES: nat := IntervalIndexes.CAPACITY
  const WORDS: nat := MAX_TILES / 64

  // --------------------------------------------------------------- bitmap

  /** A 64-bit word, as the set of positions of its one bits. */
  type Word = set<nat>

  function NoneSeen(): seq<Word> {
    seq(WORDS, _ => {})
  }

  predicate Seen(words: seq<Word>, k: nat)
    requires k / 64 < |words|
  {
    k % 64 in words[k / 64]
  }

  function Mark(words: seq<Word>, k: nat): seq<Word>
    requires k / 64 < |words|
  {
    words[k / 64 := words[k / 64] + {k % 64}]
  }

  lemma WordOf(k: nat)
    requires k < MAX_TILES
    ensures k / 64 < WORDS
  {
  }

  /** Marking a tile changes its own bit and no other. */
  lemma MarkSets(words: seq<Word>, k: nat, j: nat)
    requires k / 64 < |words| && j / 64 < |words|
    ensures Seen(Mark(words, k), j) <==> j == k || Seen(words, j)
  {
    assert j == k <==> j / 64 == k / 64 && j % 64 == k % 64;
  }

  // ------------------------------------------------- the four views agree

  ghost predicate BitmapAgrees(words: seq<Word>, tiles: Tiles) {
    && |words| == WORDS
    && forall k: nat :: k < MAX_TILES ==> (Seen(words, k) <==> k in tiles)
  }

  /** Offsets are relative to `base`, the start of the compacted bitstream. */
  ghost predicate OffsetsAgree(offsets: seq<nat>, base: nat, tiles: Tiles) {
    forall k :: k in tiles ==>
      && 2 * k + 1 < |offsets|
      && offsets[2 * k] + base == tiles[k].lo
      && offsets[2 * k + 1] + base == tiles[k].hi
  }

  /** Entries of tiles that are not registered are still clear. */
  ghost predicate RestClear(offsets: seq<nat>, tiles: Tiles) {
    forall j :: 0 <= j < |offsets| && j / 2 !in tiles ==> offsets[j] == 0
  }

  ghost predicate TilesOk(tiles: Tiles, numSlices: nat) {
    && (forall k :: k in tiles ==> k < numSlices && tiles[k].lo < tiles[k].hi <= UINT32_MAX)
    && (forall j, k :: j in tiles && k in tiles && j != k ==> !Overlap(tiles[j], tiles[k]))
  }

  ghost predicate ExtremesAgree(tiles: Tiles, minOffset: nat, maxEnd: nat) {
    && (forall k :: k in tiles ==> minOffset <= tiles[k].lo && tiles[k].hi <= maxEnd)
    && (tiles == map[] ==> minOffset == UINT32_MAX && maxEnd == 0)
    && (tiles != map[] ==> exists k :: k in tiles && tiles[k].lo == minOffset)
    && (tiles != map[] ==> exists k :: k in tiles && tiles[k].hi == maxEnd)
  }

  lemma NothingSeen(words: seq<Word>)
    requires words == NoneSeen()
    ensures BitmapAgrees(words, map[])
  {
  }

  lemma BitmapMarked(words: seq<Word>, tiles: Tiles, k: nat, iv: Interval)
    requires BitmapAgrees(words, tiles) && k < MAX_TILES
    ensures BitmapAgrees(Mark(words, k), tiles[k := iv])
  {
    forall j: nat | j < MAX_TILES
      ensures Seen(Mark(words, k), j) <==> j in tiles[k := iv]
    {
      MarkSets(words, k, j);
    }
  }

  lemma OffsetsWritten(offsets: seq<nat>, tiles: Tiles, k: nat, iv: Interval)
    requires OffsetsAgree(offsets, 0, tiles) && 2 * k + 1 < |offsets|
    ensures OffsetsAgree(offsets[2 * k := iv.lo][2 * k + 1 := iv.hi], 0, tiles[k := iv])
  {
  }

  lemma RestStaysClear(offsets: seq<nat>, tiles: Tiles, k: nat, iv: Interval)
    requires RestClear(offsets, tiles) && 2 * k + 1 < |offsets|
    ensures RestClear(offsets[2 * k := iv.lo][2 * k + 1 := iv.hi], tiles[k := iv])
  {
    var after := offsets[2 * k := iv.lo][2 * k + 1 := iv.hi];
    forall j | 0 <= j < |after| && j / 2 !in tiles[k := iv]
      ensures after[j] == 0
    {
      assert j != 2 * k && j != 2 * k + 1;
      assert after[j] == offsets[j];
    }
  }

  lemma TilesExtended(tiles: Tiles, numSlices: nat, k: nat, iv: Interval)
    requires TilesOk(tiles, numSlices) && k < numSlices && iv.lo < iv.hi <= UINT32_MAX
    requires k !in tiles && Clear(iv, tiles.Values)
    ensures TilesOk(tiles[k := iv], numSlices)
  {
    forall j | j in tiles
      ensures !Overlap(iv, tiles[j]) && !Overlap(tiles[j], iv)
    {
      assert tiles[j] in tiles.Values;
    }
  }

  lemma ValuesExtended(tiles: Tiles, k: nat, iv: Interval)
    requires k !in tiles
    ensures tiles[k := iv].Values == tiles.Values + {iv}
  {
    var after := tiles[k := iv];
    forall v | v in tiles.Values
      ensures v in after.Values
    {
      var j :| j in tiles && tiles[j] == v;
      assert after[j] == v;
    }
    assert after[k] == iv;
  }

  lemma SizeExtended(tiles: Tiles, k: nat, iv: Interval)
    requires k !in tiles
    ensures |tiles[k := iv]| == |tiles| + 1
  {
    assert tiles[k := iv].Keys == tiles.Keys + {k};
  }

  lemma ExtremesExtended(tiles: Tiles, k: nat, iv: Interval, minOffset: nat, maxEnd: nat)
    requires ExtremesAgree(tiles, minOffset, maxEnd) && k !in tiles && iv.lo < iv.hi <= UINT32_MAX
    ensures ExtremesAgree(tiles[k := iv],
                          if iv.lo < minOffset then iv.lo else minOffset,
                          if iv.hi > maxEnd then iv.hi else maxEnd)
  {
    var after := tiles[k := iv];
    assert after[k] == iv;
    if tiles != map[] {
      var i :| i in tiles && tiles[i].lo == minOffset;
      assert after[i].lo == minOffset;
      var j :| j in tiles && tiles[j].hi == maxEnd;
      assert after[j].hi == maxEnd;
    }
  }

  lemma NotYetFull(tiles: Tiles, numSlices: nat, k: nat)
    requires TilesOk(tiles, numSlices) && k < numSlices && k !in tiles
    ensures |tiles| < numSlices
  {
    var all := tiles.Keys + {k};
    assert |all| == |tiles.Keys| + 1;
    IndicesBelow(all, numSlices);
  }

  /** Everything the context records about the registered tiles: the bitmap and
      its count, the offset table (relative to `base`), the interval index, and
      the extremes. */
  datatype Views = Views(
    numSlices: nat,
    words: seq<Word>,
    offsetsSeen: nat,
    offsets: seq<nat>,
    base: nat,
    ranges: set<Interval>,
    rangeCount: nat,
    minOffset: nat,
    maxEnd: nat)

  /** All views describe the same tiles. */
  ghost predicate ViewsAgree(v: Views, tiles: Tiles) {
    && TilesOk(tiles, v.numSlices)
    && BitmapAgrees(v.words, tiles)
    && v.offsetsSeen == |tiles| == v.rangeCount
    && OffsetsAgree(v.offsets, v.base, tiles) && RestClear(v.offsets, tiles)
    && (tiles != map[] ==> v.numSlices <= MAX_TILES && |v.offsets| == 2 * v.numSlices)
    && v.ranges == tiles.Values
    && ExtremesAgree(tiles, v.minOffset, v.maxEnd)
  }

  ghost predicate AllClear(offsets: seq<nat>) {
    forall j :: 0 <= j < |offsets| ==> offsets[j] == 0
  }

  lemma EmptyViews(v: Views)
    requires v.words == NoneSeen() && v.offsetsSeen == v.rangeCount == 0
    requires v.ranges == {} && v.minOffset == UINT32_MAX && v.maxEnd == 0
    requires AllClear(v.offsets)
    ensures ViewsAgree(v, map[])
  {
    NothingSeen(v.words);
  }

  /** The views once a tile has been entered. */
  ghost function Entered(v: Views, k: nat, iv: Interval): Views
    requires k / 64 < |v.words| && 2 * k + 1 < |v.offsets|
  {
    v.(words := Mark(v.words, k),
       offsetsSeen := v.offsetsSeen + 1,
       offsets := v.offsets[2 * k := iv.lo][2 * k + 1 := iv.hi],
       ranges := v.ranges + {iv},
       rangeCount := v.rangeCount + 1,
       minOffset := if iv.lo < v.minOffset then iv.lo else v.minOffset,
       maxEnd := if iv.hi > v.maxEnd then iv.hi else v.maxEnd)
  }

  /** Entering a tile that is new and clear of the others keeps the views in step. */
  lemma EnteredAgrees(v: Views, tiles: Tiles, k: nat, iv: Interval)
    requires ViewsAgree(v, tiles) && v.base == 0 && v.numSlices <= MAX_TILES && |v.offsets| == 2 * v.numSlices
    requires k < v.numSlices && k !in tiles
    requires iv.lo < iv.hi <= UINT32_MAX && Clear(iv, tiles.Values)
    ensures ViewsAgree(Entered(v, k, iv), tiles[k := iv])
  {
    hide OffsetsAgree, RestClear, BitmapAgrees, TilesOk, ExtremesAgree, Mark, Clear;
    BitmapMarked(v.words, tiles, k, iv);
    OffsetsWritten(v.offsets, tiles, k, iv);
    RestStaysClear(v.offsets, tiles, k, iv);
    WordOf(k);
    ViewFacts(v, tiles);
    TilesExtended(tiles, v.numSlices, k, iv);
    ValuesExtended(tiles, k, iv);
    SizeExtended(tiles, k, iv);
    ExtremesExtended(tiles, k, iv, v.minOffset, v.maxEnd);
  }

  lemma EnteredMaybe(v: Views, tiles: Tiles, k: nat, iv: Interval)
    requires ViewsAgree(v, tiles) && v.base == 0 && v.numSlices <= MAX_TILES && |v.offsets| == 2 * v.numSlices
    requires k < v.numSlices && k !in tiles
    requires iv.lo < iv.hi <= UINT32_MAX
    ensures Clear(iv, tiles.Values) ==> ViewsAgree(Entered(v, k, iv), tiles[k := iv])
  {
    if Clear(iv, tiles.Values) {
      EnteredAgrees(v, tiles, k, iv);
    }
  }

  /** Before compaction the buffer is the submitted data. After it, `base` and
      `size` frame the part of the data that holds every tile. */
  ghost predicate DataKept(length: nat, size: nat, compacted: bool, base: nat, tiles: Tiles, numSlices: nat) {
    && (!compacted ==> base == 0 && size == length)
    && (compacted ==> |tiles| == numSlices && 0 < numSlices && base + size <= length && Framed(tiles, base, base + size))
  }

  ghost predicate Framed(tiles: Tiles, lo: nat, hi: nat) {
    forall k :: k in tiles ==> lo <= tiles[k].lo && tiles[k].hi <= hi
  }

  /** When compaction fires, for the data and extremes of a complete picture. */
  ghost predicate Fires(data: seq<Byte>, minOffset: nat, maxEnd: nat) {
    data != [] && maxEnd <= |data| && StartFor(data, minOffset) != 0
  }

  /** A compacted buffer starts at the frame of the first tile and ends with the last. */
  ghost predicate StartKept(data: seq<Byte>, size: nat, compacted: bool, base: nat, minOffset: nat, maxEnd: nat) {
    compacted ==>
      Fires(data, minOffset, maxEnd) && base == StartFor(data, minOffset) && base + size == maxEnd
  }

  lemma FiringNeedsData(data: seq<Byte>, minOffset: nat, maxEnd: nat)
    ensures Fires(data, minOffset, maxEnd) ==> data != [] && maxEnd <= |data|
  {
  }

  /** The tile count is the layout's, unless the layout has none. */
  ghost predicate SlicesOk(numSlices: nat, layout: Layout, tiles: Tiles) {
    && (numSlices == TileCount(layout) || TileCount(layout) == 0)
    && (TileCount(layout) == 0 ==> tiles == map[])
  }

  // --------------------------------------------------------------- batches

  datatype TileParam = TileParam(row: nat, col: nat, offset: nat, size: nat)

  function RequestOf(p: TileParam, base: nat, dataSize: nat): Request {
    Request(p.row, p.col, p.offset, p.size, base, dataSize)
  }

  ghost function Requests(params: seq<TileParam>, base: nat, dataSize: nat): (r: seq<Request>)
    ensures |r| == |params|
  {
    seq(|params|, i requires 0 <= i < |params| => RequestOf(params[i], base, dataSize))
  }

  lemma {:induction false} BatchExtends(l: Layout, tiles: Tiles, batch: seq<Request>, r: Request)
    requires RegisterBatch(l, tiles, batch).1
    ensures var now := RegisterBatch(l, tiles, batch).0;
      RegisterBatch(l, tiles, batch + [r]) ==
        if Acceptable(l, now, r) then (Registered(l, now, r), true) else (now, false)
    decreases |batch|
  {
    if batch != [] {
      BatchExtends(l, Registered(l, tiles, batch[0]), batch[1..], r);
      assert (batch + [r])[1..] == batch[1..] + [r];
    }
  }

  lemma {:induction false} BatchStops(l: Layout, tiles: Tiles, batch: seq<Request>, n: nat)
    requires n < |batch| && RegisterBatch(l, tiles, batch[..n]).1
    requires !Acceptable(l, RegisterBatch(l, tiles, batch[..n]).0, batch[n])
    ensures RegisterBatch(l, tiles, batch) == (RegisterBatch(l, tiles, batch[..n]).0, false)
    decreases n
  {
    if n != 0 {
      assert batch[..n][1..] == batch[1..][..n - 1];
      BatchStops(l, Registered(l, tiles, batch[0]), batch[1..], n - 1);
    }
  }

  lemma {:induction false} BatchKeepsTile(l: Layout, tiles: Tiles, batch: seq<Request>, k: nat)
    requires k in tiles
    ensures var after := RegisterBatch(l, tiles, batch).0; k in after && after[k] == tiles[k]
    decreases |batch|
  {
    if batch != [] && Acceptable(l, tiles, batch[0]) {
      BatchKeepsTile(l, Registered(l, tiles, batch[0]), batch[1..], k);
    }
  }

  /** An accepted batch leaves the range of each record at the record's own tile, in
      raster order. */
  lemma {:induction false} BatchLands(l: Layout, tiles: Tiles, batch: seq<Request>, i: nat)
    requires i < |batch| && RegisterBatch(l, tiles, batch).1
    ensures var after, r := RegisterBatch(l, tiles, batch).0, batch[i];
      var k := r.row * l.cols + r.col;
      k in after && after[k] == Interval(r.base + r.offset, r.base + r.offset + r.size)
    decreases i
  {
    var next := Registered(l, tiles, batch[0]);
    if i == 0 {
      BatchKeepsTile(l, next, batch[1..], TileIndex(l, batch[0]));
    } else {
      BatchLands(l, next, batch[1..], i - 1);
    }
  }

  // ----------------------------------------------------------------- class

  /** The bitstream buffer is `data` with the logical size `size`; `offsets` is
      the slice offset table. */
  ghost function Shifted(offsets: seq<nat>, start: nat): (r: seq<nat>)
    ensures |r| == |offsets|
  {
    seq(|offsets|, i requires 0 <= i < |offsets| => if offsets[i] >= start then offsets[i] - start else offsets[i])
  }

  lemma NothingRegistered(l: Layout, tiles: Tiles)
    ensures RegisterBatch(l, tiles, []) == (tiles, true)
  {
  }

  /** Cut to `n` entries, or padded with zeros. */
  function Resized(offsets: seq<nat>, n: nat): (r: seq<nat>)
    ensures |r| == n
  {
    if n <= |offsets| then offsets[..n] else offsets + seq(n - |offsets|, _ => 0)
  }

  lemma ResizedClear(offsets: seq<nat>, n: nat)
    ensures |offsets| == n ==> Resized(offsets, n) == offsets
    ensures AllClear(offsets) ==> AllClear(Resized(offsets, n))
  {
  }

  /** The layout is within the limit and no allocation fails. */
  ghost predicate Granted(l: Layout, offsetGrant: bool, grants: seq<bool>) {
    TileCount(l) <= MAX_TILES && offsetGrant && forall i :: 0 <= i < |grants| ==> grants[i]
  }

  class Av1Context {
    const intervals: IntervalIndex
    var data: seq<Byte>
    var size: nat
    var offsets: seq<nat>
    var tileSeen: seq<Word>
    var offsetsSeen: nat
    var minOffset: nat
    var maxEnd: nat
    var compacted: bool
    var dataOffset: nat
    var layout: Layout
    var numSlices: nat
    var bitstreamDataLen: nat
    var lastParams: seq<TileParam>
    var inputValidationFailed: bool
    var offsetsFailed: bool
    var bitstreamFailed: bool
    /** The tiles registered for this picture. */
    ghost var tiles: Tiles

    ghost function Snapshot(): Views
      reads this, intervals
    {
      Views(numSlices, tileSeen, offsetsSeen, offsets, dataOffset,
            intervals.Ranges(), intervals.count, minOffset, maxEnd)
    }

    ghost predicate Valid()
      reads this, intervals, intervals.storage
    {
      && intervals.Valid()
      && SlicesOk(numSlices, layout, tiles)
      && ViewsAgree(Snapshot(), tiles)
      && StartKept(data, size, compacted, dataOffset, minOffset, maxEnd)
      && DataKept(|data|, size, compacted, dataOffset, tiles, numSlices)
    }

    constructor ()
      ensures Valid() && tiles == map[] && data == []
      ensures fresh(intervals) && fresh(intervals.storage)
    {
      intervals := new IntervalIndex();
      data, size, offsets := [], 0, [];
      tileSeen := NoneSeen();
      offsetsSeen, minOffset, maxEnd := 0, UINT32_MAX, 0;
      compacted, dataOffset := false, 0;
      layout, numSlices, bitstreamDataLen, lastParams := Layout(0, 0), 0, 0, [];
      inputValidationFailed, offsetsFailed, bitstreamFailed := false, false, false;
      tiles := map[];
      new;
      EmptyViews(Snapshot());
    }

    /** A new picture: the buffers were emptied when the last one was submitted,
        and the picture parameters reset the tile state. */
    method StartPicture(cols: nat, rows: nat)
      requires Valid()
      modifies this, intervals
      modifies intervals.storage`size, intervals.storage`count, intervals.storage`failed
      ensures Valid() && tiles == map[] && data == [] && offsets == [] && !compacted
      ensures layout == Layout(cols, rows) && numSlices == TileCount(layout)
    {
      hide IntervalIndex.Valid, ViewsAgree, TileCount;
      ClearPicture(Layout(cols, rows));
      intervals.Reset();
      EmptyViews(Snapshot());
    }

    method ClearPicture(l: Layout)
      modifies this
      ensures data == [] && size == 0 && offsets == [] && dataOffset == 0 && !compacted
      ensures layout == l && numSlices == TileCount(l)
      ensures offsetsSeen == 0 && tileSeen == NoneSeen() && minOffset == UINT32_MAX && maxEnd == 0
      ensures tiles == map[] && lastParams == old(lastParams)
    {
      hide TileCount, NoneSeen;
      data, size, offsets, dataOffset, inputValidationFailed := [], 0, [], 0, false;
      offsetsFailed, bitstreamFailed := false, false;
      layout := l;
      numSlices := TileCount(l);
      offsetsSeen := 0;
      tileSeen := NoneSeen();
      minOffset, maxEnd, compacted := UINT32_MAX, 0, false;
      tiles := map[];
    }

    /** Two offsets per tile, the new part cleared; `granted` is the outcome of a
        reservation that needs memory. */
    method EnsureOffsetStorage(granted: bool) returns (ok: bool)
      requires Valid() && numSlices <= MAX_TILES
      modifies this`offsets, this`offsetsFailed
      ensures Valid()
      ensures ok <==> 2 * numSlices <= old(|offsets|) || granted || numSlices == 0
      ensures ok ==> offsets == Resized(old(offsets), 2 * numSlices) && offsetsFailed == old(offsetsFailed)
      ensures ok ==> |offsets| == 2 * numSlices
      ensures ok ==> forall j :: 0 <= j < |offsets| ==> offsets[j] == if j < |old(offsets)| then old(offsets)[j] else 0
      ensures !ok ==> tiles == map[] && offsets == [] && offsetsFailed
    {
      hide IntervalIndex.Valid, Intervals, ViewsAgree, DataKept, StartKept, SlicesOk;
      OffsetsMayChange(this);
      var required := 2 * numSlices;
      if required == 0 {
        offsets := [];
        return true;
      }
      if required > |offsets| && !granted {
        offsetsFailed := true;
        offsets := [];
        return false;
      }
      ResizedClear(offsets, required);
      offsets := Resized(offsets, required);
      return true;
    }

    /** One tile of a batch: registered exactly when it is acceptable and the
        interval index has storage for it. */
    method RegisterTile(r: Request, granted: bool) returns (ok: bool)
      requires Valid() && numSlices <= MAX_TILES && |offsets| == 2 * numSlices
      modifies this`offsets, this`tileSeen, this`offsetsSeen, this`minOffset, this`maxEnd, this`tiles
      modifies this`inputValidationFailed, this`offsetsFailed, intervals, intervals.storage
      ensures Valid() && |offsets| == 2 * numSlices
      ensures ok == (Acceptable(layout, old(tiles), r) &&
                     HasStorage(old(intervals.storage.capacity), old(intervals.count), granted))
      ensures tiles == if ok then Registered(layout, old(tiles), r) else old(tiles)
      ensures ok ==> r.base < maxEnd && TileIndex(layout, r) in tiles
      ensures ok ==>
        var k := r.row * layout.cols + r.col;
        && 2 * k + 1 < |offsets| && k / 64 < |tileSeen| && k % 64 in tileSeen[k / 64]
        && offsets[2 * k] == r.base + r.offset && offsets[2 * k + 1] == r.base + r.offset + r.size
      ensures ok || inputValidationFailed || offsetsFailed
      ensures ok ==> inputValidationFailed == old(inputValidationFailed) && offsetsFailed == old(offsetsFailed)
    {
      hide IntervalIndex.Valid, Intervals, CapacityFor, ViewsAgree, DataKept, StartKept, SlicesOk, Clear, HasStorage;
      hide TileCount;
      ReadyToCheck(this, r);
      if r.offset > r.dataSize || r.size > r.dataSize - r.offset {
        inputValidationFailed := true;
        return false;
      }
      if r.row >= layout.rows || r.col >= layout.cols {
        inputValidationFailed := true;
        return false;
      }
      var index := TileIndex(layout, r);
      if Seen(tileSeen, index) {
        inputValidationFailed := true;
        return false;
      }
      var start := r.base + r.offset;
      if start > UINT32_MAX || r.size > UINT32_MAX - start {
        inputValidationFailed := true;
        return false;
      }
      var end := start + r.size;
      if start == end {
        inputValidationFailed := true;
        return false;
      }
      ok := AddTile(index, start, end, granted);
      if !ok {
        if intervals.storage.failed {
          offsetsFailed := true;
        } else {
          inputValidationFailed := true;
        }
      }
    }

    /** Enters a range that passed the checks into all the views. */
    method AddTile(index: nat, start: nat, end: nat, granted: bool) returns (ok: bool)
      requires Valid() && numSlices <= MAX_TILES && |offsets| == 2 * numSlices
      requires index < TileCount(layout) && index !in tiles && start < end <= UINT32_MAX
      modifies this`offsets, this`tileSeen, this`offsetsSeen, this`minOffset, this`maxEnd, this`tiles
      modifies intervals, intervals.storage
      ensures Valid() && |offsets| == 2 * numSlices
      ensures ok == (Clear(Interval(start, end), old(tiles).Values) &&
                     HasStorage(old(intervals.storage.capacity), old(intervals.count), granted))
      ensures tiles == if ok then old(tiles)[index := Interval(start, end)] else old(tiles)
      ensures ok ==> end <= maxEnd && 2 * index + 1 < |offsets| && offsets[2 * index] == start && offsets[2 * index + 1] == end
      ensures ok ==> index / 64 < |tileSeen| && index % 64 in tileSeen[index / 64]
    {
      hide IntervalIndex.Valid, Intervals, CapacityFor, ViewsAgree, DataKept, StartKept, SlicesOk, Clear, HasStorage;
      hide Mark, TileCount;
      ghost var iv := Interval(start, end);
      AboutToEnter(this, index, iv);
      ok := intervals.Add(start, end, granted);
      if ok {
        NoteTile(index, start, end);
      }
    }

    /** The fields of the context that record a tile. */
    method NoteTile(index: nat, start: nat, end: nat)
      requires index / 64 < |tileSeen| && 2 * index + 1 < |offsets|
      modifies this`offsets, this`tileSeen, this`offsetsSeen, this`minOffset, this`maxEnd, this`tiles
      ensures offsets == old(offsets)[2 * index := start][2 * index + 1 := end]
      ensures tileSeen == Mark(old(tileSeen), index) && offsetsSeen == old(offsetsSeen) + 1
      ensures index / 64 < |tileSeen| && index % 64 in tileSeen[index / 64]
      ensures minOffset == if start < old(minOffset) then start else old(minOffset)
      ensures maxEnd == if end > old(maxEnd) then end else old(maxEnd)
      ensures tiles == old(tiles)[index := Interval(start, end)]
    {
      offsets := offsets[2 * index := start][2 * index + 1 := end];
      tileSeen := Mark(tileSeen, index);
      if start < minOffset {
        minOffset := start;
      }
      if end > maxEnd {
        maxEnd := end;
      }
      offsetsSeen := offsetsSeen + 1;
      tiles := tiles[index := Interval(start, end)];
    }

    /** A batch of tile records whose data starts at `base`. A tile count still at
        zero is taken from the records or the layout. Stops at the first rejection;
        otherwise compacts once every tile is in. */
    method SetSliceOffsets(params: seq<TileParam>, base: nat, dataSize: nat, offsetGrant: bool, grants: seq<bool>)
      returns (all: bool, ghost n: nat)
      requires Valid() && |grants| == |params|
      modifies this, intervals, intervals.storage
      ensures Valid() && n <= |params| && (all ==> n == |params|)
      ensures data == old(data) && layout == old(layout) && lastParams == old(lastParams)
      ensures numSlices == if old(numSlices) == 0 then Max(|params|, TileCount(layout)) else old(numSlices)
      ensures RegisterBatch(layout, old(tiles), Requests(params, base, dataSize)[..n]) == (tiles, true)
      ensures Granted(layout, offsetGrant, grants) && (params != [] || numSlices <= MAX_TILES) ==>
        RegisterBatch(layout, old(tiles), Requests(params, base, dataSize)) == (tiles, all)
      ensures all || inputValidationFailed || offsetsFailed
      ensures all ==> |offsets| == 2 * numSlices && (params != [] ==> tiles != map[])
      ensures offsetGrant ==> |offsets| == if numSlices <= MAX_TILES then 2 * numSlices else old(|offsets|)
      ensures !all ==> compacted == old(compacted)
      ensures all && tiles != map[] && |tiles| == numSlices ==> compacted == Fires(data, minOffset, maxEnd)
      ensures old(size) <= base && params != [] ==>
        compacted == old(compacted) && size == old(size) && dataOffset == old(dataOffset)
    {
      hide IntervalIndex.Valid, Intervals, ViewsAgree, DataKept, StartKept, SlicesOk, Fires;
      hide TileCount, RegisterBatch, Requests, CapacityFor;
      NoTileFits(layout, tiles, params, base, dataSize);
      AdoptCount(|params|);
      all, n := RegisterAllowed(params, base, dataSize, offsetGrant, grants);
      if all {
        CompactIfComplete();
      }
    }

    /** Compaction behind an accepted batch. */
    method CompactIfComplete()
      requires Valid()
      modifies this`offsets, this`dataOffset, this`size, this`bitstreamDataLen, this`compacted
      ensures Valid() && |offsets| == |old(offsets)|
      ensures tiles != map[] && |tiles| == numSlices ==> compacted == Fires(data, minOffset, maxEnd)
      ensures old(size) < maxEnd ==> compacted == old(compacted) && size == old(size) && dataOffset == old(dataOffset)
    {
      hide IntervalIndex.Valid, Intervals, ViewsAgree, DataKept, StartKept, SlicesOk, Fires, TileCount;
      CountMatches(this);
      FiringNeedsData(data, minOffset, maxEnd);
      if size > 0 && offsetsSeen >= numSlices {
        var _ := Compact();
      }
    }

    /** The limit, the storage, and the records. */
    method RegisterAllowed(params: seq<TileParam>, base: nat, dataSize: nat, offsetGrant: bool, grants: seq<bool>)
      returns (all: bool, ghost n: nat)
      requires Valid() && |grants| == |params|
      modifies this`offsets, this`tileSeen, this`offsetsSeen, this`minOffset, this`maxEnd, this`tiles
      modifies this`inputValidationFailed, this`offsetsFailed, intervals, intervals.storage
      ensures Valid() && n <= |params| && (all ==> n == |params|)
      ensures RegisterBatch(layout, old(tiles), Requests(params, base, dataSize)[..n]) == (tiles, true)
      ensures numSlices <= MAX_TILES && offsetGrant && (forall i :: 0 <= i < |grants| ==> grants[i]) ==>
        RegisterBatch(layout, old(tiles), Requests(params, base, dataSize)) == (tiles, all)
      ensures numSlices > MAX_TILES ==> !all && tiles == old(tiles)
      ensures offsetGrant ==> |offsets| == if numSlices <= MAX_TILES then 2 * numSlices else old(|offsets|)
      ensures all || inputValidationFailed || offsetsFailed
      ensures all ==> |offsets| == 2 * numSlices && (params != [] ==> base < maxEnd && tiles != map[])
    {
      hide IntervalIndex.Valid, Intervals, ViewsAgree, DataKept, StartKept, SlicesOk, Fires;
      hide TileCount, RegisterBatch, Requests, CapacityFor;
      all, n := false, 0;
      NothingRegistered(layout, tiles);
      assert Requests(params, base, dataSize)[..0] == [];
      if numSlices > MAX_TILES {
        inputValidationFailed := true;
        return;
      }
      var ok := EnsureOffsetStorage(offsetGrant);
      if !ok {
        return;
      }
      all, n := RegisterTiles(params, base, dataSize, grants);
    }

    /** A tile count that is still zero. */
    method AdoptCount(count: nat)
      requires Valid()
      modifies this`numSlices
      ensures Valid()
      ensures numSlices == if old(numSlices) == 0 then Max(count, TileCount(layout)) else old(numSlices)
      ensures TileCount(layout) != 0 ==> numSlices == TileCount(layout)
    {
      hide IntervalIndex.Valid, Intervals, ViewsAgree, DataKept, StartKept, SlicesOk, TileCount;
      SlicesMayChange(this, Max(count, TileCount(layout)));
      if numSlices == 0 {
        numSlices := Max(count, TileCount(layout));
      }
    }

    /** The loop over the records. */
    method RegisterTiles(params: seq<TileParam>, base: nat, dataSize: nat, grants: seq<bool>)
      returns (all: bool, ghost n: nat)
      requires Valid() && numSlices <= MAX_TILES && |offsets| == 2 * numSlices && |grants| == |params|
      modifies this`offsets, this`tileSeen, this`offsetsSeen, this`minOffset, this`maxEnd, this`tiles
      modifies this`inputValidationFailed, this`offsetsFailed, intervals, intervals.storage
      ensures Valid() && |offsets| == 2 * numSlices && n <= |params| && (all ==> n == |params|)
      ensures RegisterBatch(layout, old(tiles), Requests(params, base, dataSize)[..n]) == (tiles, true)
      ensures (forall i :: 0 <= i < |grants| ==> grants[i]) ==>
        RegisterBatch(layout, old(tiles), Requests(params, base, dataSize)) == (tiles, all)
      ensures all && params != [] ==> base < maxEnd && tiles != map[]
      ensures all || inputValidationFailed || offsetsFailed
    {
      hide IntervalIndex.Valid, Intervals, ViewsAgree, DataKept, StartKept, SlicesOk, Acceptable, TileCount;
      hide RegisterBatch, CapacityFor;
      all, n := false, 0;
      ghost var reqs := Requests(params, base, dataSize);
      assert reqs[..0] == [];
      NothingRegistered(layout, tiles);
      for i := 0 to |params|
        invariant Valid() && |offsets| == 2 * numSlices && n == i
        invariant RegisterBatch(layout, old(tiles), reqs[..i]) == (tiles, true)
        invariant (base < maxEnd && tiles != map[]) || i == 0
      {
        assert reqs[i] == RequestOf(params[i], base, dataSize);
        var ok := RegisterTile(RequestOf(params[i], base, dataSize), grants[i]);
        if !ok {
          if grants[i] {
            BatchStops(layout, old(tiles), reqs, i);
          }
          return;
        }
        BatchExtends(layout, old(tiles), reqs[..i], reqs[i]);
        assert reqs[..i] + [reqs[i]] == reqs[..i + 1];
        n := n + 1;
      }
      all := true;
      assert reqs[..|params|] == reqs;
    }

    /** Drops what precedes the frame of the first tile and re-bases the offsets.
        `fired` says whether anything was done. */
    method Compact() returns (fired: bool)
      requires Valid() && numSlices <= offsetsSeen
      modifies this`offsets, this`dataOffset, this`size, this`bitstreamDataLen, this`compacted
      ensures Valid()
      ensures forall k: nat :: k < numSlices ==> k in tiles
      ensures fired <==> !old(compacted) && tiles != map[] && Fires(data, minOffset, maxEnd)
      ensures fired <==>
        !old(compacted) && tiles != map[] && 1 <= |data| && maxEnd <= |data| && StartFor(data, minOffset) > 0
      ensures !fired ==> unchanged(this)
      ensures fired ==>
        && compacted && 0 < dataOffset == StartFor(data, minOffset) < minOffset
        && size == maxEnd - dataOffset == bitstreamDataLen
        && offsets == Shifted(old(offsets), dataOffset)
        && forall j :: 0 <= j < |old(offsets)| ==> dataOffset <= old(offsets)[j]
    {
      hide IntervalIndex.Valid, Intervals, ViewsAgree, DataKept, SlicesOk, StartKept, Shifted;
      AllRegistered(this);
      if compacted || data == [] || offsetsSeen == 0 {
        return false;
      }
      if maxEnd > size || minOffset >= maxEnd {
        return false;
      }
      assert data[..size] == data;
      var start := FindObuStart(data[..size], minOffset);
      var end := maxEnd;
      if start == 0 || start >= end {
        return false;
      }
      Rebase(start);
      return true;
    }

    /** The writes of a compaction that fires. */
    method Rebase(start: nat)
      requires Valid() && tiles != map[] && numSlices <= offsetsSeen && !compacted
      requires Fires(data, minOffset, maxEnd) && start == StartFor(data, minOffset) < minOffset
      modifies this`offsets, this`dataOffset, this`size, this`bitstreamDataLen, this`compacted
      ensures Valid() && compacted && dataOffset == start
      ensures size == maxEnd - start == bitstreamDataLen
      ensures offsets == Shifted(old(offsets), start)
      ensures forall j :: 0 <= j < |old(offsets)| ==> start <= old(offsets)[j]
    {
      hide IntervalIndex.Valid, Intervals, ViewsAgree, DataKept, SlicesOk, Fires, Shifted;
      AllRegistered(this);
      FiringNeedsData(data, minOffset, maxEnd);
      ShiftedKeeps(this, start);
      ShiftOffsets(start);
      dataOffset := start;
      size := maxEnd - start;
      bitstreamDataLen := size;
      compacted := true;
    }

    /** The loop that re-bases the table. */
    method ShiftOffsets(start: nat)
      requires |offsets| == 2 * numSlices
      modifies this`offsets
      ensures offsets == Shifted(old(offsets), start)
    {
      ghost var was := offsets;
      var i := 0;
      while i < 2 * numSlices
        invariant 0 <= i <= |offsets| == |was|
        invariant forall j :: 0 <= j < i ==> offsets[j] == Shifted(was, start)[j]
        invariant forall j :: i <= j < |was| ==> offsets[j] == was[j]
        decreases 2 * numSlices - i
      {
        if offsets[i] >= start {
          offsets := offsets[i := offsets[i] - start];
        }
        i := i + 1;
      }
    }

    /** Tile parameters; when data came first they are registered at once. */
    method CopySliceParam(params: seq<TileParam>, present: bool, offsetGrant: bool, grants: seq<bool>)
      returns (all: bool, ghost n: nat)
      requires Valid() && |grants| == |params|
      modifies this, intervals, intervals.storage
      ensures Valid() && n <= |params| && data == old(data) && layout == old(layout)
      ensures old(size) > 0 && present ==>
        && RegisterBatch(layout, old(tiles), Requests(params, 0, old(size))[..n]) == (tiles, true) && lastParams == []
        && numSlices == (if old(numSlices) == 0 then Max(|params|, TileCount(layout)) else old(numSlices))
        && (Granted(layout, offsetGrant, grants) && params != [] ==>
              && RegisterBatch(layout, old(tiles), Requests(params, 0, old(size))) == (tiles, all)
              && |offsets| == if numSlices <= MAX_TILES then 2 * numSlices else |old(offsets)|)
        && (!all ==> compacted == old(compacted))
        && (all && tiles != map[] && |tiles| == numSlices ==> compacted == Fires(data, minOffset, maxEnd))
      ensures !(old(size) > 0 && present) ==>
        && tiles == old(tiles) && lastParams == params && numSlices == old(numSlices) && offsets == old(offsets)
        && compacted == old(compacted) && size == old(size) && dataOffset == old(dataOffset)
    {
      hide IntervalIndex.Valid, Intervals, ViewsAgree, DataKept, StartKept, SlicesOk, TileCount, RegisterBatch, Fires;
      lastParams := params;
      all, n := false, 0;
      if size > 0 && present {
        all, n := SetSliceOffsets(params, 0, size, offsetGrant, grants);
        lastParams := [];
      }
    }

    /** Slice data; pending tile parameters are registered against the place the
        data is about to take, and never compact before it is there. */
    method CopySliceData(buf: seq<Byte>, offsetGrant: bool, grants: seq<bool>, appendGrant: bool)
      returns (ghost n: nat)
      requires Valid() && !compacted && |grants| == |lastParams|
      modifies this, intervals, intervals.storage
      ensures Valid() && layout == old(layout) && lastParams == old(lastParams) && n <= |lastParams|
      ensures old(size) + |buf| > UINT32_MAX ==> tiles == old(tiles) && data == old(data) && !compacted
      ensures old(size) + |buf| <= UINT32_MAX ==>
        && RegisterBatch(layout, old(tiles), Requests(lastParams, old(size), |buf|)[..n]) == (tiles, true)
        && data == old(data) + (if appendGrant then buf else [])
        && (Granted(layout, offsetGrant, grants) ==>
              RegisterBatch(layout, old(tiles), Requests(lastParams, old(size), |buf|)).0 == tiles)
      ensures !compacted && old(size) + |buf| <= UINT32_MAX ==> bitstreamDataLen == size == |data|
      ensures compacted ==> bitstreamDataLen == size && 0 < dataOffset && tiles != map[] && |tiles| == numSlices
      ensures old(size) + |buf| <= UINT32_MAX && lastParams != [] ==>
        && numSlices == (if old(numSlices) == 0 then Max(|lastParams|, TileCount(layout)) else old(numSlices))
        && (offsetGrant ==> |offsets| == if numSlices <= MAX_TILES then 2 * numSlices else |old(offsets)|)
      ensures old(size) + |buf| > UINT32_MAX || lastParams == [] ==>
        numSlices == old(numSlices) && |offsets| == |old(offsets)| && (tiles == map[] ==> offsets == old(offsets))
      ensures old(size) + |buf| <= UINT32_MAX && tiles != map[] && |tiles| == numSlices ==>
        compacted == Fires(data, minOffset, maxEnd)
    {
      hide IntervalIndex.Valid, Intervals, ViewsAgree, TileCount, RegisterBatch, DataKept, StartKept, SlicesOk, Fires;
      n := 0;
      assert lastParams == [] ==> Requests(lastParams, size, |buf|) == [];
      assert Requests(lastParams, size, |buf|)[..0] == [];
      NothingRegistered(layout, tiles);
      if size > UINT32_MAX || |buf| > UINT32_MAX - size {
        inputValidationFailed := true;
        return;
      }
      if lastParams != [] {
        var _, m := SetSliceOffsets(lastParams, size, |buf|, offsetGrant, grants);
        n := m;
      }
      AppendData(buf, appendGrant);
      CountMatches(this);
      if offsetsSeen >= numSlices {
        var _ := Compact();
      }
    }

    /** Appends to the bitstream, and commits its length either way. */
    method AppendData(buf: seq<Byte>, granted: bool)
      requires Valid() && !compacted
      modifies this`data, this`size, this`bitstreamDataLen, this`bitstreamFailed
      ensures Valid() && data == old(data) + (if granted then buf else [])
      ensures bitstreamDataLen == size == |data|
    {
      hide IntervalIndex.Valid, Intervals, ViewsAgree, SlicesOk, Fires;
      if granted {
        data := data + buf;
        size := size + |buf|;
      } else {
        bitstreamFailed := true;
        assert data + [] == data;
      }
      bitstreamDataLen := size;
    }
  }

  /** What entering one more tile relies on and keeps. */
  lemma AboutToEnter(c: Av1Context, index: nat, iv: Interval)
    requires c.Valid() && c.numSlices <= MAX_TILES && |c.offsets| == 2 * c.numSlices
    requires index < TileCount(c.layout) && index !in c.tiles && iv.lo < iv.hi <= UINT32_MAX
    ensures c.intervals.Ranges() == c.tiles.Values && !c.compacted
    ensures index / 64 < |c.tileSeen| && 2 * index + 1 < |c.offsets|
    ensures Admits(c.intervals.Ranges(), c.intervals.count, iv.lo, iv.hi) == Clear(iv, c.tiles.Values)
    ensures Clear(iv, c.tiles.Values) ==> ViewsAgree(Entered(c.Snapshot(), index, iv), c.tiles[index := iv])
    ensures DataKept(|c.data|, c.size, c.compacted, c.dataOffset, c.tiles[index := iv], c.numSlices)
    ensures forall min, max :: StartKept(c.data, c.size, c.compacted, c.dataOffset, min, max)
    ensures SlicesOk(c.numSlices, c.layout, c.tiles[index := iv])
  {
    hide IntervalIndex.Valid, Intervals, ViewsAgree, Clear;
    ViewFacts(c.Snapshot(), c.tiles);
    NotYetFull(c.tiles, c.numSlices, index);
    WordOf(index);
    EnteredMaybe(c.Snapshot(), c.tiles, index, iv);
  }

  /** The parts of the agreement that other proofs use. */
  lemma ViewFacts(v: Views, tiles: Tiles)
    requires ViewsAgree(v, tiles)
    ensures TilesOk(tiles, v.numSlices)
    ensures v.ranges == tiles.Values && v.offsetsSeen == |tiles| == v.rangeCount && |v.words| == WORDS
    ensures tiles != map[] ==> v.numSlices <= MAX_TILES && |v.offsets| == 2 * v.numSlices
    ensures tiles != map[] ==> v.minOffset < v.maxEnd
  {
    if tiles != map[] {
      var k :| k in tiles && tiles[k].lo == v.minOffset;
    }
  }

  /** Without tiles the offset table may be any clear one. */
  lemma OffsetsMayChange(c: Av1Context)
    requires c.Valid()
    ensures c.tiles != map[] ==> |c.offsets| == 2 * c.numSlices
    ensures c.tiles == map[] ==>
      && AllClear(c.offsets)
      && forall t: seq<nat> :: AllClear(t) ==> ViewsAgree(c.Snapshot().(offsets := t), c.tiles)
  {
    hide IntervalIndex.Valid, Intervals, DataKept, StartKept, SlicesOk;
  }

  /** Without tiles, and with a layout that has none, the tile count may change. */
  lemma SlicesMayChange(c: Av1Context, numSlices: nat)
    requires c.Valid()
    ensures c.numSlices == 0 ==>
      && !c.compacted && c.tiles == map[] && TileCount(c.layout) == 0
      && ViewsAgree(c.Snapshot().(numSlices := numSlices), c.tiles)
      && DataKept(|c.data|, c.size, c.compacted, c.dataOffset, c.tiles, numSlices)
      && SlicesOk(numSlices, c.layout, c.tiles)
    ensures TileCount(c.layout) != 0 ==> c.numSlices == TileCount(c.layout)
  {
    hide IntervalIndex.Valid, Intervals, TileCount;
    if c.numSlices == 0 {
      forall k | k in c.tiles
        ensures false
      {
      }
      assert c.tiles == map[];
    }
  }

  /** A layout without tiles takes no record. */
  lemma NoTileFits(l: Layout, tiles: Tiles, params: seq<TileParam>, base: nat, dataSize: nat)
    ensures TileCount(l) == 0 && params != [] ==>
      RegisterBatch(l, tiles, Requests(params, base, dataSize)) == (tiles, false)
  {
    if TileCount(l) == 0 && params != [] {
      var r := Requests(params, base, dataSize)[0];
      if r.row < l.rows && r.col < l.cols {
        IndexInLayout(l, r);
        assert false;
      }
    }
  }

  lemma ReadyToCheck(c: Av1Context, r: Request)
    requires c.Valid() && c.numSlices <= MAX_TILES
    ensures r.row < c.layout.rows && r.col < c.layout.cols ==>
      var k := TileIndex(c.layout, r);
      k < TileCount(c.layout) && k / 64 < |c.tileSeen| && (Seen(c.tileSeen, k) <==> k in c.tiles)
  {
    hide IntervalIndex.Valid, Intervals, DataKept, StartKept, TileCount;
    if r.row < c.layout.rows && r.col < c.layout.cols {
      IndexInLayout(c.layout, r);
      WordOf(TileIndex(c.layout, r));
    }
  }

  /** The seen count is the number of tiles, and never passes the tile count. */
  lemma CountMatches(c: Av1Context)
    requires c.Valid()
    ensures c.offsetsSeen == |c.tiles| <= c.numSlices
    ensures !c.compacted ==> c.size == |c.data|
    ensures c.compacted ==> Fires(c.data, c.minOffset, c.maxEnd) && 0 < c.size
  {
    hide IntervalIndex.Valid, Intervals, ViewsAgree, TileCount, Fires, TilesOk;
    ViewFacts(c.Snapshot(), c.tiles);
    TilesFew(c.tiles, c.numSlices);
    if c.compacted {
      SomeTileFramed(c.tiles, c.numSlices, c.dataOffset, c.dataOffset + c.size);
    }
  }

  lemma TilesFew(tiles: Tiles, numSlices: nat)
    requires TilesOk(tiles, numSlices)
    ensures |tiles| <= numSlices
    ensures |tiles| == numSlices ==> forall k: nat :: k < numSlices ==> k in tiles
  {
    assert |tiles.Keys| == |tiles|;
    IndicesBelow(tiles.Keys, numSlices);
  }

  lemma SomeTileFramed(tiles: Tiles, numSlices: nat, lo: nat, hi: nat)
    requires TilesOk(tiles, numSlices) && Framed(tiles, lo, hi) && tiles != map[]
    ensures lo < hi
  {
    var k :| k in tiles;
  }

  /** A full seen count means that every tile slot is filled. */
  lemma AllRegistered(c: Av1Context)
    requires c.Valid() && c.numSlices <= c.offsetsSeen
    ensures |c.tiles| == c.numSlices == c.offsetsSeen
    ensures forall k: nat :: k < c.numSlices ==> k in c.tiles
    ensures c.tiles != map[] ==> |c.offsets| == 2 * c.numSlices && c.numSlices <= MAX_TILES && c.minOffset < c.maxEnd
    ensures !c.compacted ==> c.dataOffset == 0 && c.size == |c.data|
  {
    hide IntervalIndex.Valid, Intervals, ViewsAgree, TileCount, TilesOk, StartKept;
    ViewFacts(c.Snapshot(), c.tiles);
    TilesFew(c.tiles, c.numSlices);
  }

  /** Re-basing at a start below every tile keeps the views in step. */
  lemma ShiftedAgrees(v: Views, tiles: Tiles, start: nat)
    requires ViewsAgree(v, tiles) && v.base == 0 && start < v.minOffset
    requires forall k: nat :: k < v.numSlices ==> k in tiles
    requires |v.offsets| == 2 * v.numSlices
    ensures ViewsAgree(v.(offsets := Shifted(v.offsets, start), base := start), tiles)
    ensures forall j :: 0 <= j < |v.offsets| ==> start <= v.offsets[j]
  {
    forall j | 0 <= j < |v.offsets|
      ensures start <= v.offsets[j]
    {
      var k := j / 2;
      assert k in tiles;
      assert j == 2 * k || j == 2 * k + 1;
    }
    ShiftedOffsetsAgree(v.offsets, tiles, start);
  }

  lemma ShiftedOffsetsAgree(offsets: seq<nat>, tiles: Tiles, start: nat)
    requires OffsetsAgree(offsets, 0, tiles)
    requires forall j :: 0 <= j < |offsets| ==> start <= offsets[j]
    ensures OffsetsAgree(Shifted(offsets, start), start, tiles)
  {
  }

  lemma ShiftedFrames(v: Views, tiles: Tiles, start: nat, length: nat)
    requires ViewsAgree(v, tiles) && start < v.minOffset && v.maxEnd <= length
    requires 0 < v.numSlices == |tiles|
    ensures start <= v.maxEnd && DataKept(length, v.maxEnd - start, true, start, tiles, v.numSlices)
  {
    var k :| k in tiles;
  }

  /** Compaction at `start` keeps the context valid. */
  lemma ShiftedKeeps(c: Av1Context, start: nat)
    requires c.Valid() && c.tiles != map[] && c.numSlices <= c.offsetsSeen && !c.compacted
    requires start < c.minOffset && c.maxEnd <= c.size
    ensures ViewsAgree(c.Snapshot().(offsets := Shifted(c.offsets, start), base := start), c.tiles)
    ensures start <= c.maxEnd && DataKept(|c.data|, c.maxEnd - start, true, start, c.tiles, c.numSlices)
    ensures forall j :: 0 <= j < |c.offsets| ==> start <= c.offsets[j]
  {
    hide IntervalIndex.Valid, Intervals, ViewsAgree, DataKept, StartKept, SlicesOk;
    AllRegistered(c);
    ShiftedAgrees(c.Snapshot(), c.tiles, start);
    ShiftedFrames(c.Snapshot(), c.tiles, start, |c.data|);
  }

  /** Wherever the buffer starts, reading a registered tile through the offset
      table gives the bytes of its range in the submitted data; after compaction
      the range lies inside the buffer. */
  lemma TileReads(c: Av1Context, k: nat)
    requires c.Valid() && k in c.tiles && (c.compacted || c.tiles[k].hi <= |c.data|)
    ensures 2 * k + 1 < |c.offsets|
    ensures c.tiles[k].hi <= |c.data|
    ensures var lo, hi := c.dataOffset + c.offsets[2 * k], c.dataOffset + c.offsets[2 * k + 1];
      lo < hi <= |c.data| && c.data[lo..hi] == c.data[c.tiles[k].lo..c.tiles[k].hi]
    ensures c.compacted ==> c.offsets[2 * k + 1] <= c.size
  {
    hide IntervalIndex.Valid, Intervals, ViewsAgree, DataKept, StartKept, SlicesOk;
    TileOffsets(c.Snapshot(), c.tiles, k);
    if c.compacted {
      TileFramed(|c.data|, c.size, c.dataOffset, c.tiles, c.numSlices, k);
    }
  }

  lemma TileOffsets(v: Views, tiles: Tiles, k: nat)
    requires ViewsAgree(v, tiles) && k in tiles
    ensures 2 * k + 1 < |v.offsets| && tiles[k].lo < tiles[k].hi
    ensures v.base + v.offsets[2 * k] == tiles[k].lo && v.base + v.offsets[2 * k + 1] == tiles[k].hi
  {
  }

  lemma TileFramed(length: nat, size: nat, base: nat, tiles: Tiles, numSlices: nat, k: nat)
    requires DataKept(length, size, true, base, tiles, numSlices) && k in tiles
    ensures base <= tiles[k].lo && tiles[k].hi <= base + size <= length
  {
  }

  /** After an accepted batch the offset table gives, at the place of each record's
      tile, where the record's bytes lie. */
  lemma ParamsLand(c: Av1Context, was: Tiles, params: seq<TileParam>, base: nat, dataSize: nat, i: nat)
    requires c.Valid() && i < |params|
    requires RegisterBatch(c.layout, was, Requests(params, base, dataSize)) == (c.tiles, true)
    ensures var p := params[i];
      var k := p.row * c.layout.cols + p.col;
      && 2 * k + 1 < |c.offsets|
      && c.dataOffset + c.offsets[2 * k] == base + p.offset
      && c.dataOffset + c.offsets[2 * k + 1] == base + p.offset + p.size
  {
    hide IntervalIndex.Valid, Intervals, ViewsAgree, DataKept, StartKept, SlicesOk, RegisterBatch;
    var p := params[i];
    var k := p.row * c.layout.cols + p.col;
    BatchLands(c.layout, was, Requests(params, base, dataSize), i);
    TileOffsets(c.Snapshot(), c.tiles, k);
  }
}
