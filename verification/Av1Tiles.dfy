/** Tile registration as a value (src/av1.c:555-652): what one tile must satisfy,
    and why the order and batching of submissions do not matter. */
module Av1Tiles {
  import opened Basics
  import opened IntervalTrees

  /** One slice parameter record together with the slice data it refers to: the
      data has `dataSize` bytes and starts at `base` in the bitstream. */
  datatype Request = Request(row: nat, col: nat, offset: nat, size: nat, base: nat, dataSize: nat)

  datatype Layout = Layout(cols: nat, rows: nat)

  function TileCount(l: Layout): nat {
    l.cols * l.rows
  }

  function TileIndex(l: Layout, r: Request): nat {
    r.row * l.cols + r.col
  }

  function TileRange(r: Request): Interval {
    Interval(r.base + r.offset, r.base + r.offset + r.size)
  }

  /** The checks that look at one record alone. */
  predicate WellPlaced(l: Layout, r: Request) {
    && r.offset + r.size <= r.dataSize
    && r.row < l.rows && r.col < l.cols
    && r.base + r.offset + r.size <= UINT32_MAX
    && 0 < r.size
  }

  /** The tiles registered so far, by tile index. */
  type Tiles = map<nat, Interval>

  ghost predicate Acceptable(l: Layout, tiles: Tiles, r: Request) {
    && WellPlaced(l, r)
    && TileIndex(l, r) !in tiles
    && Clear(TileRange(r), tiles.Values)
  }

  ghost function Registered(l: Layout, tiles: Tiles, r: Request): Tiles {
    tiles[TileIndex(l, r) := TileRange(r)]
  }

  /** A batch stops at its first rejection and keeps what came before. */
  ghost function RegisterBatch(l: Layout, tiles: Tiles, batch: seq<Request>): (Tiles, bool)
    decreases |batch|
  {
    if batch == [] then (tiles, true)
    else if !Acceptable(l, tiles, batch[0]) then (tiles, false)
    else RegisterBatch(l, Registered(l, tiles, batch[0]), batch[1..])
  }

  /** Batches one after another; a rejection in one does not keep the next from
      being tried. */
  ghost function RegisterBatches(l: Layout, tiles: Tiles, batches: seq<seq<Request>>): (Tiles, bool)
    decreases |batches|
  {
    if batches == [] then (tiles, true)
    else
      var (next, ok) := RegisterBatch(l, tiles, batches[0]);
      var (last, rest) := RegisterBatches(l, next, batches[1..]);
      (last, ok && rest)
  }

  ghost function Flatten(batches: seq<seq<Request>>): seq<Request> {
    if batches == [] then [] else batches[0] + Flatten(batches[1..])
  }

  // ---------------------------------------------------------- compatibility

  /** Two records that can both be registered. */
  predicate Compatible(l: Layout, a: Request, b: Request) {
    TileIndex(l, a) != TileIndex(l, b) && !Overlap(TileRange(a), TileRange(b))
  }

  /** Every record fits by itself and no two conflict; a record that occurs twice
      conflicts with itself. This says nothing about order. */
  ghost predicate AllCompatible(l: Layout, bag: multiset<Request>) {
    && (forall r :: r in bag ==> WellPlaced(l, r) && bag[r] == 1)
    && (forall a, b :: a in bag && b in bag && a != b ==> Compatible(l, a, b))
  }

  /** `tiles` is what registering exactly the records of `bag` leaves. */
  ghost predicate Holds(l: Layout, bag: multiset<Request>, tiles: Tiles) {
    && (forall r :: r in bag ==> TileIndex(l, r) in tiles && tiles[TileIndex(l, r)] == TileRange(r))
    && (forall k :: k in tiles ==> exists r :: r in bag && TileIndex(l, r) == k)
  }

  lemma HoldsUnique(l: Layout, bag: multiset<Request>, a: Tiles, b: Tiles)
    requires Holds(l, bag, a) && Holds(l, bag, b)
    ensures a == b
  {
    forall k | k in a
      ensures k in b && a[k] == b[k]
    {
      var r :| r in bag && TileIndex(l, r) == k;
    }
    forall k | k in b
      ensures k in a
    {
      var r :| r in bag && TileIndex(l, r) == k;
    }
  }

  /** One more record is acceptable exactly when it fits and does not conflict
      with those already there. */
  lemma AcceptableIsCompatible(l: Layout, bag: multiset<Request>, tiles: Tiles, r: Request)
    requires Holds(l, bag, tiles) && AllCompatible(l, bag)
    ensures Acceptable(l, tiles, r) <==> AllCompatible(l, bag + multiset{r})
    ensures Acceptable(l, tiles, r) ==> Holds(l, bag + multiset{r}, Registered(l, tiles, r))
  {
    if Acceptable(l, tiles, r) {
      StaysCompatible(l, bag, tiles, r);
    }
    if AllCompatible(l, bag + multiset{r}) {
      BecomesAcceptable(l, bag, tiles, r);
    }
  }

  ghost predicate ClearOfAll(l: Layout, bag: multiset<Request>, r: Request) {
    forall a :: a in bag ==> Compatible(l, a, r) && Compatible(l, r, a)
  }

  lemma ClearStaysCompatible(l: Layout, bag: multiset<Request>, r: Request)
    requires AllCompatible(l, bag) && ClearOfAll(l, bag, r) && WellPlaced(l, r)
    ensures AllCompatible(l, bag + multiset{r})
  {
    assert r !in bag;
  }

  lemma StaysCompatible(l: Layout, bag: multiset<Request>, tiles: Tiles, r: Request)
    requires Holds(l, bag, tiles) && AllCompatible(l, bag) && Acceptable(l, tiles, r)
    ensures AllCompatible(l, bag + multiset{r})
    ensures Holds(l, bag + multiset{r}, Registered(l, tiles, r))
  {
    assert ClearOfAll(l, bag, r) by {
      forall a | a in bag
        ensures Compatible(l, a, r) && Compatible(l, r, a)
      {
        assert tiles[TileIndex(l, a)] in tiles.Values;
      }
    }
    ClearStaysCompatible(l, bag, r);
    var after := Registered(l, tiles, r);
    forall k | k in after
      ensures exists x :: x in bag + multiset{r} && TileIndex(l, x) == k
    {
      if k == TileIndex(l, r) {
        assert r in bag + multiset{r};
      } else {
        var x :| x in bag && TileIndex(l, x) == k;
        assert x in bag + multiset{r};
      }
    }
  }

  lemma BecomesAcceptable(l: Layout, bag: multiset<Request>, tiles: Tiles, r: Request)
    requires Holds(l, bag, tiles) && AllCompatible(l, bag + multiset{r})
    ensures Acceptable(l, tiles, r)
  {
    var all := bag + multiset{r};
    assert r in all && all[r] == 1;
    assert r !in bag;
    forall k | k in tiles
      ensures k != TileIndex(l, r) && !Overlap(TileRange(r), tiles[k])
    {
      var x :| x in bag && TileIndex(l, x) == k;
      assert x in all && x != r;
      assert Compatible(l, r, x);
    }
    forall v | v in tiles.Values
      ensures !Overlap(TileRange(r), v)
    {
      var k :| k in tiles && tiles[k] == v;
    }
  }

  lemma SubBagCompatible(l: Layout, small: multiset<Request>, large: multiset<Request>)
    requires small <= large && AllCompatible(l, large)
    ensures AllCompatible(l, small)
  {
    forall r | r in small
      ensures WellPlaced(l, r) && small[r] == 1
    {
      assert r in large;
    }
  }

  /** A batch on top of `bag` is fully accepted exactly when everything together
      is compatible, and then it leaves exactly that. */
  lemma {:induction false} BatchAccepted(l: Layout, bag: multiset<Request>, tiles: Tiles, batch: seq<Request>)
    requires Holds(l, bag, tiles) && AllCompatible(l, bag)
    ensures RegisterBatch(l, tiles, batch).1 <==> AllCompatible(l, bag + multiset(batch))
    ensures RegisterBatch(l, tiles, batch).1 ==>
      Holds(l, bag + multiset(batch), RegisterBatch(l, tiles, batch).0)
    decreases |batch|
  {
    if batch == [] {
      assert bag + multiset(batch) == bag;
    } else {
      var r, rest := batch[0], batch[1..];
      assert batch == [r] + rest;
      assert bag + multiset(batch) == bag + multiset{r} + multiset(rest);
      AcceptableIsCompatible(l, bag, tiles, r);
      if Acceptable(l, tiles, r) {
        BatchAccepted(l, bag + multiset{r}, Registered(l, tiles, r), rest);
      } else if AllCompatible(l, bag + multiset(batch)) {
        SubBagCompatible(l, bag + multiset{r}, bag + multiset(batch));
      }
    }
  }

  lemma {:induction false} BatchesAccepted(l: Layout, bag: multiset<Request>, tiles: Tiles, batches: seq<seq<Request>>)
    requires Holds(l, bag, tiles) && AllCompatible(l, bag)
    ensures RegisterBatches(l, tiles, batches).1 <==> AllCompatible(l, bag + multiset(Flatten(batches)))
    ensures RegisterBatches(l, tiles, batches).1 ==>
      Holds(l, bag + multiset(Flatten(batches)), RegisterBatches(l, tiles, batches).0)
    decreases |batches|
  {
    if batches == [] {
      assert bag + multiset(Flatten(batches)) == bag;
    } else {
      var first, rest := batches[0], batches[1..];
      assert multiset(Flatten(batches)) == multiset(first) + multiset(Flatten(rest));
      assert bag + multiset(Flatten(batches)) == bag + multiset(first) + multiset(Flatten(rest));
      BatchAccepted(l, bag, tiles, first);
      var (next, ok) := RegisterBatch(l, tiles, first);
      if ok {
        BatchesAccepted(l, bag + multiset(first), next, rest);
      } else if AllCompatible(l, bag + multiset(Flatten(batches))) {
        SubBagCompatible(l, bag + multiset(first), bag + multiset(Flatten(batches)));
      }
    }
  }

  /** Registration does not depend on order or batching: two ways to submit the
      same records are fully accepted together or not at all, namely exactly
      when the records are compatible, and they leave the same table. */
  lemma OrderDoesNotMatter(l: Layout, a: seq<seq<Request>>, b: seq<seq<Request>>)
    requires multiset(Flatten(a)) == multiset(Flatten(b))
    ensures RegisterBatches(l, map[], a).1 <==> AllCompatible(l, multiset(Flatten(a)))
    ensures RegisterBatches(l, map[], a).1 <==> RegisterBatches(l, map[], b).1
    ensures RegisterBatches(l, map[], a).1 ==> RegisterBatches(l, map[], a).0 == RegisterBatches(l, map[], b).0
  {
    var none: multiset<Request> := multiset{};
    assert none + multiset(Flatten(a)) == multiset(Flatten(a));
    assert none + multiset(Flatten(b)) == multiset(Flatten(b));
    BatchesAccepted(l, none, map[], a);
    BatchesAccepted(l, none, map[], b);
    if RegisterBatches(l, map[], a).1 {
      HoldsUnique(l, multiset(Flatten(a)), RegisterBatches(l, map[], a).0, RegisterBatches(l, map[], b).0);
    }
  }

  /** Full rows below `b` leave at least one row of room above `a`. */
  lemma RowGap(a: nat, b: nat, cols: nat)
    requires a < b
    ensures a * cols + cols <= b * cols
  {
    var gap := b - a - 1;
    assert b * cols == (a + 1 + gap) * cols == a * cols + cols + gap * cols;
  }

  /** In-range coordinates are distinct exactly when their indices are. */
  lemma IndexIsInjective(l: Layout, a: Request, b: Request)
    requires a.col < l.cols && b.col < l.cols
    ensures TileIndex(l, a) == TileIndex(l, b) <==> a.row == b.row && a.col == b.col
  {
    if a.row < b.row {
      RowGap(a.row, b.row, l.cols);
    } else if b.row < a.row {
      RowGap(b.row, a.row, l.cols);
    }
  }

  lemma IndexInLayout(l: Layout, r: Request)
    requires r.row < l.rows && r.col < l.cols
    ensures TileIndex(l, r) < TileCount(l)
  {
    RowGap(r.row, l.rows, l.cols);
    assert l.rows * l.cols == TileCount(l);
  }

  /** Indices count the tiles in raster order. */
  lemma IndexIsRasterOrder(l: Layout, a: Request, b: Request)
    requires a.col < l.cols && b.col < l.cols
    ensures TileIndex(l, a) < TileIndex(l, b) <==> a.row < b.row || (a.row == b.row && a.col < b.col)
  {
    if a.row < b.row {
      RowGap(a.row, b.row, l.cols);
    } else if b.row < a.row {
      RowGap(b.row, a.row, l.cols);
    }
  }

  /** And every index below the tile count belongs to a tile of the layout. */
  lemma IndexIsOnto(l: Layout, k: nat) returns (row: nat, col: nat)
    requires k < TileCount(l)
    ensures row < l.rows && col < l.cols
    ensures forall r: Request :: r.row == row && r.col == col ==> TileIndex(l, r) == k
  {
    if l.cols == 0 {
      assert false;
    }
    row, col := k / l.cols, k % l.cols;
    assert k == row * l.cols + col;
    if l.rows <= row {
      MulMonotone(l.rows, row, l.cols);
      assert false;
    }
  }

  // ------------------------------------------------------- in plain fields

  /** The record names a tile of the layout and a non-empty range of 32-bit offsets
      inside the slice data that came with it. */
  predicate Placeable(l: Layout, r: Request) {
    && r.row < l.rows && r.col < l.cols
    && 1 <= r.size && r.offset <= r.dataSize && r.size <= r.dataSize - r.offset
    && r.base + r.offset + r.size < 0x1_0000_0000
  }

  /** Neither the same tile nor a common byte. */
  predicate Separated(a: Request, b: Request) {
    && !(a.row == b.row && a.col == b.col)
    && (a.base + a.offset + a.size <= b.base + b.offset || b.base + b.offset + b.size <= a.base + a.offset)
  }

  /** All records of a list can be taken, whatever their order. */
  ghost predicate Submittable(l: Layout, records: seq<Request>) {
    && (forall i :: 0 <= i < |records| ==> Placeable(l, records[i]))
    && (forall i, j :: 0 <= i < j < |records| ==> Separated(records[i], records[j]))
  }

  lemma PlaceableIsWellPlaced(l: Layout, r: Request)
    ensures WellPlaced(l, r) <==> Placeable(l, r)
  {
  }

  lemma SeparatedIsCompatible(l: Layout, a: Request, b: Request)
    requires Placeable(l, a) && Placeable(l, b)
    ensures Compatible(l, a, b) <==> Separated(a, b)
  {
    IndexIsInjective(l, a, b);
  }

  lemma BagOnce(records: seq<Request>, i: nat, j: nat)
    requires i < j < |records| && records[i] == records[j]
    ensures multiset(records)[records[i]] >= 2
  {
    var x := records[i];
    assert records == records[..j] + records[j..];
    assert multiset(records) == multiset(records[..j]) + multiset(records[j..]);
    assert records[..j][i] == x && records[j..][0] == x;
    assert x in multiset(records[..j]) && x in multiset(records[j..]);
  }

  lemma {:induction false} OnceInBag(records: seq<Request>, x: Request)
    requires forall i, j :: 0 <= i < j < |records| ==> records[i] != records[j]
    requires x in records
    ensures multiset(records)[x] == 1
  {
    var n := |records| - 1;
    assert records == records[..n] + [records[n]];
    if x == records[n] {
      assert x !in records[..n];
    } else {
      OnceInBag(records[..n], x);
    }
  }

  lemma SubmittableIsCompatible(l: Layout, records: seq<Request>)
    requires Submittable(l, records)
    ensures AllCompatible(l, multiset(records))
  {
    hide Placeable, WellPlaced, Separated, Compatible;
    forall i, j | 0 <= i < j < |records|
      ensures records[i] != records[j] && Compatible(l, records[i], records[j]) && Compatible(l, records[j], records[i])
    {
      NotSeparatedFromItself(records[i]);
      SeparatedIsCompatible(l, records[i], records[j]);
      CompatibleBothWays(l, records[i], records[j]);
    }
    forall r | r in multiset(records)
      ensures WellPlaced(l, r) && multiset(records)[r] == 1
    {
      PlaceableIsWellPlaced(l, r);
      OnceInBag(records, r);
    }
    forall a, b | a in multiset(records) && b in multiset(records) && a != b
      ensures Compatible(l, a, b)
    {
      var i :| 0 <= i < |records| && records[i] == a;
      var j :| 0 <= j < |records| && records[j] == b;
      assert i < j || j < i;
    }
  }

  lemma NotSeparatedFromItself(a: Request)
    ensures !Separated(a, a)
  {
  }

  lemma CompatibleBothWays(l: Layout, a: Request, b: Request)
    ensures Compatible(l, a, b) <==> Compatible(l, b, a)
  {
  }

  lemma CompatibleIsSubmittable(l: Layout, records: seq<Request>)
    requires AllCompatible(l, multiset(records))
    ensures Submittable(l, records)
  {
    hide Placeable, WellPlaced, Separated, Compatible;
    forall i | 0 <= i < |records|
      ensures Placeable(l, records[i])
    {
      assert records[i] in multiset(records);
      PlaceableIsWellPlaced(l, records[i]);
    }
    forall i, j | 0 <= i < j < |records|
      ensures Separated(records[i], records[j])
    {
      assert records[i] in multiset(records) && records[j] in multiset(records);
      if records[i] == records[j] {
        BagOnce(records, i, j);
        assert false;
      }
      SeparatedIsCompatible(l, records[i], records[j]);
    }
  }

  /** A picture's records are fully accepted, in whatever batches, exactly when each
      names a tile of the layout and a non-empty range inside its data, and no two
      name the same tile or share a byte. */
  lemma AcceptedInPlain(l: Layout, batches: seq<seq<Request>>)
    ensures RegisterBatches(l, map[], batches).1 <==> Submittable(l, Flatten(batches))
  {
    hide Submittable, AllCompatible, RegisterBatches;
    OrderDoesNotMatter(l, batches, batches);
    if Submittable(l, Flatten(batches)) {
      SubmittableIsCompatible(l, Flatten(batches));
    }
    if AllCompatible(l, multiset(Flatten(batches))) {
      CompatibleIsSubmittable(l, Flatten(batches));
    }
  }

  /** `tiles[k]` is the range of a record for the tile at `k` in raster order. */
  ghost predicate ComesFrom(l: Layout, k: nat, iv: Interval, r: Request) {
    && Placeable(l, r) && k == r.row * l.cols + r.col
    && iv.lo == r.base + r.offset && iv.hi == r.base + r.offset + r.size
  }

  ghost predicate AllComeFrom(l: Layout, tiles: Tiles, records: seq<Request>) {
    forall k :: k in tiles ==> exists r :: r in records && ComesFrom(l, k, tiles[k], r)
  }

  /** Every registered tile is one of the submitted records, also when a later
      record is refused. */
  lemma {:induction false} RegisteredComesFrom(l: Layout, tiles: Tiles, batch: seq<Request>, before: seq<Request>)
    requires AllComeFrom(l, tiles, before)
    ensures AllComeFrom(l, RegisterBatch(l, tiles, batch).0, before + batch)
    decreases |batch|
  {
    hide ComesFrom, Clear;
    if batch == [] {
      assert before + batch == before;
    } else if !Acceptable(l, tiles, batch[0]) {
      ComeFromMore(l, tiles, before, batch);
    } else {
      var r := batch[0];
      OneComesFrom(l, tiles, before, r);
      RegisteredComesFrom(l, Registered(l, tiles, r), batch[1..], before + [r]);
      assert before + [r] + batch[1..] == before + batch;
    }
  }

  lemma ComeFromMore(l: Layout, tiles: Tiles, before: seq<Request>, more: seq<Request>)
    requires AllComeFrom(l, tiles, before)
    ensures AllComeFrom(l, tiles, before + more)
  {
    hide ComesFrom;
    forall k | k in tiles
      ensures exists r :: r in before + more && ComesFrom(l, k, tiles[k], r)
    {
      var r :| r in before && ComesFrom(l, k, tiles[k], r);
      assert r in before + more;
    }
  }

  lemma OneComesFrom(l: Layout, tiles: Tiles, before: seq<Request>, r: Request)
    requires AllComeFrom(l, tiles, before) && WellPlaced(l, r)
    ensures AllComeFrom(l, Registered(l, tiles, r), before + [r])
  {
    ComeFromMore(l, tiles, before, [r]);
    var after, all := Registered(l, tiles, r), before + [r];
    assert ComesFrom(l, TileIndex(l, r), TileRange(r), r);
    hide ComesFrom;
    forall k | k in after
      ensures exists x :: x in all && ComesFrom(l, k, after[k], x)
    {
      if k == TileIndex(l, r) {
        assert r in all && ComesFrom(l, k, after[k], r);
      } else {
        assert k in tiles && after[k] == tiles[k];
      }
    }
  }
}
