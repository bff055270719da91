/** Slice data that arrives after compaction (src/av1.c:683-709). The buffer still
    begins at byte 0 but its size has become the length of the frame, so an append
    lands inside the frame. */
module Av1LateData {
  import opened Basics
  import opened AppendableBuffers
  import opened IntervalTrees
  import opened IntervalIndexes
  import opened Av1Tiles
  import opened Av1Contexts
  import opened Av1Obu
  import Av1Units
  import Av1Arrivals

  /** What stays true of a compacted context whatever is appended. */
  ghost predicate Late(c: Av1Context)
    reads c, c.intervals, c.intervals.storage
  {
    && c.intervals.Valid() && c.compacted && c.size <= |c.data|
    && ViewsAgree(c.Snapshot(), c.tiles)
    && |c.tiles| == c.numSlices == TileCount(c.layout) && 0 < c.numSlices
  }

  lemma CompactedIsLate(c: Av1Context)
    requires c.Valid() && c.compacted
    ensures Late(c) && c.size + c.dataOffset == c.maxEnd <= |c.data| && 0 < c.dataOffset && c.minOffset < c.maxEnd
    ensures Framed(c.tiles, c.dataOffset, c.maxEnd)
  {
    hide IntervalIndex.Valid, Intervals, ViewsAgree, TileCount, Framed;
    ViewFacts(c.Snapshot(), c.tiles);
  }

  /** The block behind an append of `more` at `size`. A block that moves keeps only
      the first `size` bytes, and `tail` is whatever lies behind in the new one. */
  function Overwritten(block: seq<Byte>, size: nat, more: seq<Byte>, moved: bool, tail: seq<Byte>): seq<Byte>
    requires size <= |block|
  {
    block[..size] + more +
      if moved then tail else if size + |more| <= |block| then block[size + |more|..] else []
  }

  lemma FullRefusesOne(l: Layout, tiles: Tiles, r: Request)
    requires forall k: nat :: k < TileCount(l) ==> k in tiles
    ensures !Acceptable(l, tiles, r)
  {
    if r.row < l.rows && r.col < l.cols {
      IndexInLayout(l, r);
    }
  }

  /** With every tile in, no record is acceptable. */
  lemma FullRefuses(c: Av1Context, reqs: seq<Request>)
    requires Late(c) && reqs != []
    ensures RegisterBatch(c.layout, c.tiles, reqs) == (c.tiles, false)
  {
    hide IntervalIndex.Valid, Intervals, ViewsAgree, TileCount, Acceptable, TilesOk;
    ViewFacts(c.Snapshot(), c.tiles);
    TilesFew(c.tiles, c.numSlices);
    FullRefusesOne(c.layout, c.tiles, reqs[0]);
  }

  /** Late slice data: pending records are refused, nothing is compacted again, and
      the bytes land behind the first `size`. */
  method CopyLateSliceData(c: Av1Context, buf: seq<Byte>, granted: bool, moved: bool, tail: seq<Byte>)
    requires Late(c)
    modifies c`data, c`size, c`bitstreamDataLen, c`bitstreamFailed, c`inputValidationFailed
    ensures Late(c) && c.offsets == old(c.offsets) && c.dataOffset == old(c.dataOffset) && c.tiles == old(c.tiles)
    ensures old(c.size) + |buf| > UINT32_MAX ==> c.inputValidationFailed && c.data == old(c.data) && c.size == old(c.size)
    ensures old(c.size) + |buf| <= UINT32_MAX ==>
      && RegisterBatch(c.layout, c.tiles, Requests(c.lastParams, old(c.size), |buf|)) == (c.tiles, c.lastParams == [])
      && (c.lastParams != [] ==> c.inputValidationFailed)
      && c.bitstreamDataLen == c.size
      && (granted ==> c.size == old(c.size) + |buf| && c.data == Overwritten(old(c.data), old(c.size), buf, moved, tail))
      && (granted ==>
            && c.size <= |c.data| && c.data[..old(c.size)] == old(c.data)[..old(c.size)] && c.data[old(c.size)..c.size] == buf
            && (!moved ==> forall j :: c.size <= j < |old(c.data)| ==> j < |c.data| && c.data[j] == old(c.data)[j]))
      && (!granted ==> c.size == old(c.size) && c.data == old(c.data) && c.bitstreamFailed)
  {
    hide IntervalIndex.Valid, Intervals, ViewsAgree, TileCount, RegisterBatch, Requests;
    NothingRegistered(c.layout, c.tiles);
    if c.size > UINT32_MAX || |buf| > UINT32_MAX - c.size {
      c.inputValidationFailed := true;
      return;
    }
    assert c.lastParams == [] ==> Requests(c.lastParams, c.size, |buf|) == [];
    if c.lastParams != [] {
      FullRefuses(c, Requests(c.lastParams, c.size, |buf|));
      c.inputValidationFailed := true;
    }
    if granted {
      c.data := Overwritten(c.data, c.size, buf, moved, tail);
      c.size := c.size + |buf|;
    } else {
      c.bitstreamFailed := true;
    }
    c.bitstreamDataLen := c.size;
  }

  ghost predicate SameRange(iv: Interval, was: seq<Byte>, now: seq<Byte>) {
    iv.lo <= iv.hi <= |was| && iv.hi <= |now| && now[iv.lo..iv.hi] == was[iv.lo..iv.hi]
  }

  /** Every tile still reads what was submitted. */
  ghost predicate Intact(tiles: Tiles, was: seq<Byte>, now: seq<Byte>) {
    forall k :: k in tiles ==> SameRange(tiles[k], was, now)
  }

  /** Some tile meets the bytes that `n` more will take. */
  ghost predicate Hit(tiles: Tiles, size: nat, n: nat) {
    0 < n && exists k :: k in tiles && Overlap(Interval(size, size + n), tiles[k])
  }

  lemma MissedStaysIntact(tiles: Tiles, block: seq<Byte>, size: nat, more: seq<Byte>)
    requires size <= |block| && !Hit(tiles, size, |more|)
    requires forall k :: k in tiles ==> tiles[k].lo < tiles[k].hi <= |block|
    ensures Intact(tiles, block, Overwritten(block, size, more, false, []))
  {
    forall k | k in tiles
      ensures SameRange(tiles[k], block, Overwritten(block, size, more, false, []))
    {
      if more == [] {
        assert Overwritten(block, size, more, false, []) == block;
      } else {
        assert !Overlap(Interval(size, size + |more|), tiles[k]);
        RangeMissed(tiles[k], block, size, more);
      }
    }
  }

  lemma RangeMissed(iv: Interval, block: seq<Byte>, size: nat, more: seq<Byte>)
    requires size <= |block| && iv.lo < iv.hi <= |block| && (iv.hi <= size || size + |more| <= iv.lo)
    ensures SameRange(iv, block, Overwritten(block, size, more, false, []))
  {
    var now := Overwritten(block, size, more, false, []);
    forall j | iv.lo <= j < iv.hi
      ensures j < |now| && now[j] == block[j]
    {
    }
  }

  lemma DifferentByte(iv: Interval, was: seq<Byte>, now: seq<Byte>, at: nat)
    requires iv.lo <= at < iv.hi <= |was| && at < |now| && now[at] != was[at]
    ensures !SameRange(iv, was, now)
  {
    if iv.hi <= |now| {
      assert now[iv.lo..iv.hi][at - iv.lo] == now[at];
      assert was[iv.lo..iv.hi][at - iv.lo] == was[at];
    }
  }

  /** A byte that differs. */
  function Other(b: Byte): (r: Byte)
    ensures r != b
  {
    if b == 0 then 1 else 0
  }

  lemma HitCanHarm(tiles: Tiles, block: seq<Byte>, size: nat, n: nat) returns (more: seq<Byte>)
    requires size <= |block| && Hit(tiles, size, n)
    requires forall k :: k in tiles ==> tiles[k].lo < tiles[k].hi <= |block|
    ensures |more| == n && !Intact(tiles, block, Overwritten(block, size, more, false, []))
  {
    var k :| k in tiles && Overlap(Interval(size, size + n), tiles[k]);
    var at := Max(size, tiles[k].lo);
    var other := Other(block[at]);
    more := seq(n, _ => other);
    var now := Overwritten(block, size, more, false, []);
    assert now[at] == more[at - size];
    DifferentByte(tiles[k], block, now, at);
  }

  /** In a block that stays, `n` late bytes leave every tile as it was, whatever
      they are, exactly when no tile meets the `n` bytes behind the frame's length. */
  lemma LateDataSpares(c: Av1Context, n: nat)
    requires c.Valid() && c.compacted
    ensures (forall more: seq<Byte> :: |more| == n ==> Intact(c.tiles, c.data, Overwritten(c.data, c.size, more, false, []))) <==>
      !Hit(c.tiles, c.size, n)
  {
    hide IntervalIndex.Valid, Intervals, ViewsAgree, TileCount, Hit, Intact, Overwritten;
    CompactedIsLate(c);
    TilesInside(c);
    if Hit(c.tiles, c.size, n) {
      var more := HitCanHarm(c.tiles, c.data, c.size, n);
    } else {
      forall more: seq<Byte> | |more| == n
        ensures Intact(c.tiles, c.data, Overwritten(c.data, c.size, more, false, []))
      {
        MissedStaysIntact(c.tiles, c.data, c.size, more);
      }
    }
  }

  lemma TilesInside(c: Av1Context)
    requires c.Valid() && c.compacted
    ensures forall k :: k in c.tiles ==> c.tiles[k].lo < c.tiles[k].hi <= |c.data|
  {
    hide IntervalIndex.Valid, Intervals, ViewsAgree, TileCount;
    CompactedIsLate(c);
    ViewFacts(c.Snapshot(), c.tiles);
  }

  lemma LastTile(v: Views, tiles: Tiles) returns (k: nat)
    requires ViewsAgree(v, tiles) && tiles != map[]
    ensures k in tiles && tiles[k].lo < tiles[k].hi == v.maxEnd
  {
    k :| k in tiles && tiles[k].hi == v.maxEnd;
  }

  /** Data at least as long as what compaction dropped always meets the last tile. */
  lemma LongLateDataHits(c: Av1Context, n: nat)
    requires c.Valid() && c.compacted && c.dataOffset <= n
    ensures Hit(c.tiles, c.size, n)
  {
    hide IntervalIndex.Valid, Intervals, ViewsAgree, TileCount;
    CompactedIsLate(c);
    var k := LastTile(c.Snapshot(), c.tiles);
    assert Overlap(Interval(c.size, c.size + n), c.tiles[k]);
  }

  /** Shorter data does too when the block moves: the end of the tile is lost. */
  lemma MovedBlockLosesTile(c: Av1Context, more: seq<Byte>) returns (tail: seq<Byte>)
    requires c.Valid() && c.compacted && |more| < c.dataOffset
    ensures !Intact(c.tiles, c.data, Overwritten(c.data, c.size, more, true, tail))
  {
    hide IntervalIndex.Valid, Intervals, ViewsAgree, TileCount;
    CompactedIsLate(c);
    TilesInside(c);
    var k := LastTile(c.Snapshot(), c.tiles);
    var at := c.maxEnd - 1;
    var other := Other(c.data[at]);
    tail := seq(c.dataOffset, _ => other);
    var now := Overwritten(c.data, c.size, more, true, tail);
    assert now[at] == tail[at - c.size - |more|];
    DifferentByte(c.tiles[k], c.data, now, at);
  }

  /** A delimiter of two bytes and a frame with one tile byte. Compaction drops the
      delimiter and leaves a size of three, so two late bytes cover the tile. */
  lemma TwoLateBytesHarm()
    ensures var block := Av1Units.EncodeAll([Av1Arrivals.DELIMITER, Av1Arrivals.ONE_TILE_FRAME]);
      var tiles: Tiles := map[0 := Interval(4, 5)];
      && |block| == 5 && ExtremesAgree(tiles, 4, 5) && Fires(block, 4, 5) && StartFor(block, 4) == 2
      && !Intact(tiles, block, Overwritten(block, 3, [9, 9], false, []))
  {
    hide Av1Units.EncodeAll, Av1Units.Encode, StartFor, Intact, Overwritten;
    var block := Av1Units.EncodeAll([Av1Arrivals.DELIMITER, Av1Arrivals.ONE_TILE_FRAME]);
    var tiles: Tiles := map[0 := Interval(4, 5)];
    Av1Arrivals.TileLocated();
    Av1Arrivals.TwoUnits(Av1Arrivals.DELIMITER, Av1Arrivals.ONE_TILE_FRAME);
    Av1Arrivals.UnitLengths();
    LastByteOf(Av1Arrivals.ONE_TILE_FRAME);
    Av1Arrivals.OneTileExtremes(tiles);
    EndOverwritten(tiles, block);
  }

  lemma LastByteOf(u: Av1Units.Unit)
    requires u.kind < Av1Units.KINDS && u.payload != []
    ensures var e := Av1Units.Encode(u); e[|e| - 1] == u.payload[|u.payload| - 1]
  {
  }

  lemma EndOverwritten(tiles: Tiles, block: seq<Byte>)
    requires tiles == map[0 := Interval(4, 5)] && |block| == 5 && block[4] == 0
    ensures !Intact(tiles, block, Overwritten(block, 3, [9, 9], false, []))
  {
    DifferentByte(tiles[0], block, Overwritten(block, 3, [9, 9], false, []), 4);
  }
}
