/** Registration through the context in any order and batching (src/av1.c:555-657):
    the class answers as the value model does, so the order-independence proved
    there holds of its fields. */
module Av1Orders {
  import opened IntervalTrees
  import opened IntervalIndexes
  import opened Av1Tiles
  import opened Av1Contexts

  /** Tile records whose data begins at `base` and has `dataSize` bytes. */
  datatype Batch = Batch(params: seq<TileParam>, base: nat, dataSize: nat)

  ghost function RequestsOf(b: Batch): seq<Request> {
    Requests(b.params, b.base, b.dataSize)
  }

  ghost function AllRequests(batches: seq<Batch>): (r: seq<seq<Request>>)
    ensures |r| == |batches|
  {
    seq(|batches|, i requires 0 <= i < |batches| => RequestsOf(batches[i]))
  }

  lemma {:induction false} BatchesExtend(l: Layout, tiles: Tiles, batches: seq<seq<Request>>, last: seq<Request>)
    ensures var before := RegisterBatches(l, tiles, batches);
      var after := RegisterBatch(l, before.0, last);
      RegisterBatches(l, tiles, batches + [last]) == (after.0, before.1 && after.1)
    decreases |batches|
  {
    hide RegisterBatch;
    if batches == [] {
      assert [last][1..] == [];
    } else {
      var first := RegisterBatch(l, tiles, batches[0]);
      BatchesExtend(l, first.0, batches[1..], last);
      assert (batches + [last])[1..] == batches[1..] + [last];
    }
  }

  lemma OneMoreBatch(l: Layout, tiles: Tiles, batches: seq<Batch>, i: nat)
    requires i < |batches|
    ensures var before := RegisterBatches(l, tiles, AllRequests(batches[..i]));
      var after := RegisterBatch(l, before.0, RequestsOf(batches[i]));
      RegisterBatches(l, tiles, AllRequests(batches[..i + 1])) == (after.0, before.1 && after.1)
  {
    hide RegisterBatch, RegisterBatches, RequestsOf;
    BatchesExtend(l, tiles, AllRequests(batches[..i]), RequestsOf(batches[i]));
    assert AllRequests(batches[..i + 1]) == AllRequests(batches[..i]) + [RequestsOf(batches[i])];
  }

  function Yes(n: nat): (r: seq<bool>)
    ensures |r| == n && forall i :: 0 <= i < n ==> r[i]
  {
    seq(n, _ => true)
  }

  /** With every allocation granted the context registers exactly what the value
      model does, rejections in the middle of a batch included. After the last
      batch of an accepted run the table has its full length and compaction has
      been decided. */
  method RegisterAll(c: Av1Context, batches: seq<Batch>) returns (all: bool)
    requires c.Valid() && c.numSlices == TileCount(c.layout) <= MAX_TILES
    modifies c, c.intervals, c.intervals.storage
    ensures c.Valid() && c.layout == old(c.layout) && c.data == old(c.data)
    ensures RegisterBatches(c.layout, old(c.tiles), AllRequests(batches)) == (c.tiles, all)
    ensures batches == [] ==> c.offsets == old(c.offsets)
    ensures all ==> c.numSlices == old(c.numSlices)
    ensures all && batches != [] ==> |c.offsets| == 2 * c.numSlices
    ensures all && batches != [] && c.tiles != map[] && |c.tiles| == c.numSlices ==>
      c.compacted == Fires(c.data, c.minOffset, c.maxEnd)
  {
    hide IntervalIndex.Valid, Intervals, ViewsAgree, DataKept, StartKept, SlicesOk, Fires, TileCount;
    hide RegisterBatch, RegisterBatches, Requests;
    all := true;
    NoBatches(c.layout, c.tiles);
    assert AllRequests(batches[..0]) == [];
    for i := 0 to |batches|
      invariant c.Valid() && c.layout == old(c.layout) && c.data == old(c.data)
      invariant RegisterBatches(c.layout, old(c.tiles), AllRequests(batches[..i])) == (c.tiles, all)
      invariant all ==> c.numSlices == old(c.numSlices)
      invariant i == 0 ==> c.offsets == old(c.offsets)
      invariant all && 0 < i ==> |c.offsets| == 2 * c.numSlices
      invariant all && 0 < i && c.tiles != map[] && |c.tiles| == c.numSlices ==>
        c.compacted == Fires(c.data, c.minOffset, c.maxEnd)
    {
      OneMoreBatch(c.layout, old(c.tiles), batches, i);
      var b := batches[i];
      NoTiles(c);
      var ok, _ := c.SetSliceOffsets(b.params, b.base, b.dataSize, true, Yes(|b.params|));
      NoTiles(c);
      all := all && ok;
    }
    assert batches[..|batches|] == batches;
  }

  lemma NoTiles(c: Av1Context)
    requires c.Valid()
    ensures TileCount(c.layout) == 0 ==> c.tiles == map[]
    ensures TileCount(c.layout) != 0 ==> c.numSlices == TileCount(c.layout)
  {
    hide IntervalIndex.Valid, Intervals, ViewsAgree, DataKept, StartKept, TileCount;
  }

  lemma NoBatches(l: Layout, tiles: Tiles)
    ensures RegisterBatches(l, tiles, []) == (tiles, true)
  {
  }

  /** The registered tiles determine extremes, ranges, bitmap and count. */
  lemma SameTilesSameViews(v: Views, w: Views, tiles: Tiles)
    requires ViewsAgree(v, tiles) && ViewsAgree(w, tiles) && v.numSlices == w.numSlices
    ensures v.minOffset == w.minOffset && v.maxEnd == w.maxEnd
    ensures v.ranges == w.ranges && v.offsetsSeen == w.offsetsSeen
    ensures forall k: nat :: k < MAX_TILES ==> (Seen(v.words, k) <==> Seen(w.words, k))
    ensures |v.offsets| == |w.offsets| && v.base == w.base ==> v.offsets == w.offsets
  {
    hide OffsetsAgree, RestClear, BitmapAgrees, ExtremesAgree, TilesOk, Seen;
    SameExtremes(tiles, v.minOffset, v.maxEnd, w.minOffset, w.maxEnd);
    SameBitmap(tiles, v.words, w.words);
    if |v.offsets| == |w.offsets| && v.base == w.base {
      SameTable(tiles, v.offsets, w.offsets, v.base);
    }
  }

  lemma SameExtremes(tiles: Tiles, min: nat, max: nat, min': nat, max': nat)
    requires ExtremesAgree(tiles, min, max) && ExtremesAgree(tiles, min', max')
    ensures min == min' && max == max'
  {
  }

  lemma SameBitmap(tiles: Tiles, v: seq<Word>, w: seq<Word>)
    requires BitmapAgrees(v, tiles) && BitmapAgrees(w, tiles)
    ensures |v| == |w| == WORDS && forall k: nat :: k < MAX_TILES ==> (Seen(v, k) <==> Seen(w, k))
  {
  }

  /** What is registered is written, the rest is clear. */
  ghost function Entry(tiles: Tiles, base: nat, j: nat): int {
    if j / 2 !in tiles then 0
    else (if j % 2 == 0 then tiles[j / 2].lo else tiles[j / 2].hi) - base
  }

  lemma EntryOf(tiles: Tiles, v: seq<nat>, base: nat, j: nat)
    requires OffsetsAgree(v, base, tiles) && RestClear(v, tiles) && j < |v|
    ensures v[j] == Entry(tiles, base, j)
  {
    var k := j / 2;
    if k in tiles {
      assert v[2 * k] + base == tiles[k].lo && v[2 * k + 1] + base == tiles[k].hi;
      assert j == if j % 2 == 0 then 2 * k else 2 * k + 1;
    }
  }

  /** So the tiles determine the table. */
  lemma SameTable(tiles: Tiles, v: seq<nat>, w: seq<nat>, base: nat)
    requires OffsetsAgree(v, base, tiles) && OffsetsAgree(w, base, tiles)
    requires RestClear(v, tiles) && RestClear(w, tiles) && |v| == |w|
    ensures v == w
  {
    hide OffsetsAgree, RestClear, Entry;
    forall j: nat | j < |v|
      ensures v[j] == w[j]
    {
      EntryOf(tiles, v, base, j);
      EntryOf(tiles, w, base, j);
    }
  }

  /** The same tiles over the same data, with compaction decided: everything the
      decoder is handed is the same. */
  lemma SameOutcome(c: Av1Context, d: Av1Context)
    requires c.Valid() && d.Valid() && c.layout == d.layout && c.numSlices == d.numSlices
    requires c.tiles == d.tiles && c.data == d.data
    requires c.tiles != map[] && |c.tiles| == c.numSlices ==>
      c.compacted == Fires(c.data, c.minOffset, c.maxEnd) && d.compacted == Fires(d.data, d.minOffset, d.maxEnd)
    ensures c.minOffset == d.minOffset && c.maxEnd == d.maxEnd
    ensures c.compacted == d.compacted && c.dataOffset == d.dataOffset && c.size == d.size
    ensures |c.offsets| == |d.offsets| ==> c.offsets == d.offsets
  {
    hide IntervalIndex.Valid, Intervals, ViewsAgree, SlicesOk, Fires, Framed;
    SameTilesSameViews(c.Snapshot(), d.Snapshot(), c.tiles);
  }

  /** Two fresh pictures of one layout over the same data, given the same tiles in
      different orders and batches: one is fully accepted exactly when the other
      is, namely exactly when the tiles are compatible, and then both contexts
      hold the same tiles, compacted the same way, with the same offset table.
      (Without any batch there is no table yet.) */
  method RegisterBothWays(c: Av1Context, d: Av1Context, a: seq<Batch>, b: seq<Batch>) returns (all: bool, other: bool)
    requires c.Valid() && d.Valid() && Fresh(c) && Fresh(d)
    requires c.layout == d.layout && TileCount(c.layout) <= MAX_TILES && c.data == d.data
    requires c != d && c.intervals != d.intervals && c.intervals.storage != d.intervals.storage
    requires multiset(Flatten(AllRequests(a))) == multiset(Flatten(AllRequests(b)))
    modifies c, c.intervals, c.intervals.storage, d, d.intervals, d.intervals.storage
    ensures c.Valid() && d.Valid() && c.layout == d.layout == old(c.layout)
    ensures all == other
    ensures all <==> AllCompatible(c.layout, multiset(Flatten(AllRequests(a))))
    ensures all ==>
      && c.tiles == d.tiles && c.minOffset == d.minOffset && c.maxEnd == d.maxEnd
      && c.compacted == d.compacted && c.dataOffset == d.dataOffset && c.size == d.size
      && ((a == [] <==> b == []) ==> c.offsets == d.offsets)
  {
    hide IntervalIndex.Valid, Intervals, ViewsAgree, DataKept, StartKept, SlicesOk, Fires, TileCount;
    hide RegisterBatches, AllRequests, AllCompatible;
    OrderDoesNotMatter(c.layout, AllRequests(a), AllRequests(b));
    NothingToRegister(c.layout, a);
    NothingToRegister(c.layout, b);
    all := RegisterAll(c, a);
    other := RegisterAll(d, b);
    if all {
      SameOutcome(c, d);
    }
  }

  /** Nothing registered and no table, as at the start of a picture. */
  ghost predicate Fresh(c: Av1Context)
    reads c
  {
    c.tiles == map[] && c.offsets == [] && c.numSlices == TileCount(c.layout)
  }

  lemma NothingToRegister(l: Layout, batches: seq<Batch>)
    ensures batches == [] ==> RegisterBatches(l, map[], AllRequests(batches)).0 == map[]
  {
    if batches == [] {
      assert AllRequests(batches) == [];
    }
  }
}
