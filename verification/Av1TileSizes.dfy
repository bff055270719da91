/** Uniform tile sizes (src/av1.c:17-23, 46-56) against the tile layout loop of
    section 5.9.15 of the AV1 specification. */
module Av1TileSizes {
  import opened Basics

  const USHORT: nat := 0x1_0000

  function Pow2(k: nat): (r: nat)
    ensures r >= 1
  {
    if k == 0 then 1 else 2 * Pow2(k - 1)
  }

  lemma {:induction false} Pow2Monotone(a: nat, b: nat)
    requires a <= b
    ensures Pow2(a) <= Pow2(b)
    decreases b
  {
    if a < b {
      Pow2Monotone(a, b - 1);
    }
  }

  /** `k` is the least exponent whose power reaches `n`. */
  predicate IsCeilLog2(n: nat, k: nat) {
    n <= Pow2(k) && (k == 0 || Pow2(k - 1) < n)
  }

  lemma CeilLog2Unique(n: nat, j: nat, k: nat)
    requires IsCeilLog2(n, j) && IsCeilLog2(n, k)
    ensures j == k
  {
    if j < k {
      Pow2Monotone(j, k - 1);
    } else if k < j {
      Pow2Monotone(k, j - 1);
    }
  }

  /** The loop that recovers the exponent from a tile count. */
  method CalcTileLog2(numTiles: nat) returns (log2: nat)
    requires numTiles <= 0x8000_0000
    ensures IsCeilLog2(numTiles, log2)
    ensures log2 <= 31
  {
    log2 := 0;
    var power := 1;
    assert Pow2(31) == 0x8000_0000 by { Pow2Of31(); }
    while power < numTiles
      invariant power == Pow2(log2) && log2 <= 31
      invariant log2 == 0 || Pow2(log2 - 1) < numTiles
      decreases 31 - log2
    {
      log2 := log2 + 1;
      power := power * 2;
    }
  }

  lemma Pow2Of31()
    ensures Pow2(31) == 0x8000_0000
  {
    assert Pow2(4) == 16;
    assert Pow2(8) == 0x100;
    assert Pow2(12) == 0x1000;
    assert Pow2(16) == 0x1_0000;
    assert Pow2(20) == 0x10_0000;
    assert Pow2(24) == 0x100_0000;
    assert Pow2(28) == 0x1000_0000;
  }

  function Min(a: nat, b: nat): nat {
    if a < b then a else b
  }

  /** Tile width for exponent `k`: `n` divided by 2^k, rounded up. */
  function TileWidth(n: nat, k: nat): nat {
    (n + Pow2(k) - 1) / Pow2(k)
  }

  /** It is the least width with which 2^k tiles cover `n`. */
  lemma WidthIsLeast(n: nat, k: nat)
    ensures Pow2(k) * TileWidth(n, k) >= n
    ensures Pow2(k) * TileWidth(n, k) < n + Pow2(k)
  {
    hide Pow2;
    var p, w := Pow2(k), TileWidth(n, k);
    CeilDiv(n, p);
    assert w * p == p * w;
  }

  /** The specification's loop: tiles of width `w` until the superblocks run out. */
  function SpecSizes(n: nat, w: nat): seq<nat>
    requires 0 < w
  {
    if n == 0 then [] else [Min(w, n)] + SpecSizes(n - Min(w, n), w)
  }

  /** The source's loop over `count` tiles. */
  function FilledSizes(count: nat, w: nat, n: nat): (r: seq<nat>)
    ensures |r| == count
  {
    if count == 0 then []
    else if count == 1 then [n]
    else [Min(w, n)] + FilledSizes(count - 1, w, n - Min(w, n))
  }

  /** The same width in 32-bit arithmetic, where the rounding sum can wrap. */
  function Width32(n: nat, k: nat): nat {
    (n + Pow2(k) - 1) % TWO_32 / Pow2(k)
  }

  method FillUniform(sizes: array<nat>, numTiles: nat, numSuperblocks: nat)
    requires numTiles <= sizes.Length && numTiles <= 0x8000_0000 && numSuperblocks <= UINT32_MAX
    modifies sizes
    ensures forall k :: IsCeilLog2(numTiles, k) ==>
      forall i :: 0 <= i < numTiles ==>
        sizes[i] == FilledSizes(numTiles, Width32(numSuperblocks, k), numSuperblocks)[i] % USHORT
    ensures forall i :: numTiles <= i < sizes.Length ==> sizes[i] == old(sizes[i])
  {
    var tileLog2 := CalcTileLog2(numTiles);
    var tileSize := Width32(numSuperblocks, tileLog2);
    var remaining: nat := numSuperblocks;
    ghost var all := FilledSizes(numTiles, tileSize, numSuperblocks);
    for i := 0 to numTiles
      invariant all[i..] == FilledSizes(numTiles - i, tileSize, remaining)
      invariant forall j :: 0 <= j < i ==> sizes[j] == all[j] % USHORT
      invariant forall j :: numTiles <= j < sizes.Length ==> sizes[j] == old(sizes[j])
    {
      var size := if i == numTiles - 1 then remaining else Min(tileSize, remaining);
      assert all[i..][0] == size && all[i..][1..] == all[i + 1..];
      sizes[i] := size % USHORT;
      remaining := remaining - size;
    }
    forall k | IsCeilLog2(numTiles, k)
      ensures k == tileLog2
    {
      CeilLog2Unique(numTiles, k, tileLog2);
    }
  }

  // --------------------------------------------------------- the arithmetic

  lemma MoveTwo(a: nat, b: nat)
    ensures a * (2 * b) == (2 * a) * b
  {
  }

  /** Powers of two up to 2^31 divide 2^32. */
  lemma {:induction false} DividesWord(k: nat)
    requires k <= 31
    ensures Pow2(k) * Pow2(32 - k) == TWO_32
  {
    if k == 0 {
      Pow2Of31();
      assert Pow2(32) == 2 * Pow2(31);
    } else {
      DividesWord(k - 1);
      Pow2Steps(k);
      Pow2Steps(33 - k);
      MoveTwo(Pow2(k - 1), Pow2(32 - k));
    }
  }

  lemma Pow2Steps(k: nat)
    requires 0 < k
    ensures Pow2(k) == 2 * Pow2(k - 1)
  {
  }

  /** The width is the rounded-up quotient exactly when the sum stays in 32 bits. */
  lemma WidthIsExact(n: nat, k: nat)
    requires k <= 31
    ensures Width32(n, k) == TileWidth(n, k) <==> n + Pow2(k) - 1 < TWO_32
  {
    hide Pow2;
    DividesWord(k);
    var sum := n + Pow2(k) - 1;
    if sum >= TWO_32 {
      QuotientBelow(sum % TWO_32, Pow2(k), Pow2(32 - k));
      QuotientAtLeast(sum, Pow2(k), Pow2(32 - k));
    }
  }

  lemma QuotientBelow(x: nat, p: nat, q: nat)
    requires 0 < p && x < p * q
    ensures x / p < q
  {
    assert x / p * p <= x;
    if x / p >= q {
      MulMonotone(q, x / p, p);
    }
  }

  lemma QuotientAtLeast(x: nat, p: nat, q: nat)
    requires 0 < p && p * q <= x
    ensures q <= x / p
  {
    var d := x / p;
    assert x < d * p + p == (d + 1) * p;
    if d + 1 <= q {
      MulMonotone(d + 1, q, p);
    }
  }

  function Sum(s: seq<nat>): nat {
    if s == [] then 0 else s[0] + Sum(s[1..])
  }

  /** The specification's layout: full tiles, then one of 1 to `w`; together `n`. */
  lemma {:induction false} SpecLayout(n: nat, w: nat)
    requires 0 < w && 0 < n
    ensures var s := SpecSizes(n, w);
      && 0 < |s|
      && (forall i :: 0 <= i < |s| - 1 ==> s[i] == w)
      && 1 <= s[|s| - 1] <= w
      && Sum(s) == n
      && (|s| - 1) * w < n <= |s| * w
    decreases n
  {
    var s := SpecSizes(n, w);
    if n <= w {
      assert SpecSizes(0, w) == [];
      assert s == [n];
    } else {
      SpecLayout(n - w, w);
      var rest := SpecSizes(n - w, w);
      assert s == [w] + rest;
      assert (|s| - 1) * w == (|rest| - 1) * w + w && |s| * w == |rest| * w + w;
    }
  }

  /** Given the specification's tile count, the source's loop fills in exactly the
      specification's sizes. */
  lemma {:induction false} FilledIsSpec(n: nat, w: nat)
    requires 0 < w && 0 < n
    ensures FilledSizes(|SpecSizes(n, w)|, w, n) == SpecSizes(n, w)
    decreases n
  {
    if n <= w {
      assert SpecSizes(n, w) == [n];
    } else {
      FilledIsSpec(n - w, w);
      SpecLayout(n - w, w);
    }
  }

  lemma CeilDiv(n: nat, m: nat)
    requires 0 < m
    ensures n <= (n + m - 1) / m * m < n + m
  {
    var q := (n + m - 1) / m;
    assert q * m <= n + m - 1 < q * m + m;
  }

  lemma UnitWidth(n: nat, p: nat)
    requires 0 < n <= p
    ensures (n + p - 1) / p == 1
  {
  }

  /** At width ceil(n/p) there are at most `p` tiles. */
  lemma AtMost(n: nat, p: nat, w: nat)
    requires 0 < n && 0 < p && w == (n + p - 1) / p && 0 < w
    ensures |SpecSizes(n, w)| <= p
  {
    hide SpecSizes;
    CeilDiv(n, p);
    SpecLayout(n, w);
    FewerTimes(|SpecSizes(n, w)| - 1, p, w, n);
  }

  lemma FewerTimes(a: nat, b: nat, w: nat, n: nat)
    requires a * w < n <= w * b
    ensures a < b
  {
    if b <= a {
      MulMonotone(b, a, w);
    }
  }

  lemma HalfIsTooFew(n: nat, h: nat, w: nat)
    requires 0 < h < n && w == (n + 2 * h - 1) / (2 * h)
    ensures h * w < n
  {
    if n < 2 * h {
      UnitWidth(n, 2 * h);
    } else {
      CeilDiv(n, 2 * h);
      assert w * (2 * h) == 2 * (h * w);
    }
  }

  /** At width ceil(n/2h) there are more than `h` tiles, provided `n` exceeds `h`. */
  lemma MoreThanHalf(n: nat, h: nat, w: nat)
    requires 0 < h < n && w == (n + 2 * h - 1) / (2 * h) && 0 < w
    ensures h < |SpecSizes(n, w)|
  {
    hide SpecSizes;
    HalfIsTooFew(n, h, w);
    SpecLayout(n, w);
    FewerTimes(h, |SpecSizes(n, w)|, w, n);
  }

  /** The exponent recomputed from the resulting tile count is the stream's own
      exactly when the stream did not ask for more splits than superblocks. */
  lemma ExponentRecovered(n: nat, k: nat, limit: nat)
    requires 0 < n && IsCeilLog2(n, limit)
    ensures 0 < TileWidth(n, k)
    ensures IsCeilLog2(|SpecSizes(n, TileWidth(n, k))|, k) <==> k <= limit
  {
    var w := TileWidth(n, k);
    CeilDiv(n, Pow2(k));
    AtMost(n, Pow2(k), w);
    if 0 < k {
      if k <= limit {
        Pow2Monotone(k - 1, limit - 1);
        MoreThanHalf(n, Pow2(k - 1), w);
      } else {
        Pow2Monotone(limit, k - 1);
        UnitWidth(n, Pow2(k));
        SpecLayout(n, 1);
      }
    }
  }

  /** What section 5.9.15 promises of the whole routine: for a stream that split
      `n` superblocks with exponent `k`, filling by the tile count alone gives
      the stream's own layout. */
  lemma UniformSizesMatchSpec(n: nat, k: nat, limit: nat)
    requires 0 < n && IsCeilLog2(n, limit) && k <= limit
    ensures 0 < TileWidth(n, k)
    ensures var w := TileWidth(n, k);
      var s := SpecSizes(n, w);
      && IsCeilLog2(|s|, k)
      && (n + Pow2(k) - 1 < TWO_32 && k <= 31 ==> Width32(n, k) == w)
      && FilledSizes(|s|, w, n) == s
      && (forall i :: 0 <= i < |s| - 1 ==> s[i] == w)
      && |s| > 0 && 1 <= s[|s| - 1] <= w
      && Sum(s) == n
  {
    ExponentRecovered(n, k, limit);
    FilledIsSpec(n, TileWidth(n, k));
    SpecLayout(n, TileWidth(n, k));
    if k <= 31 {
      WidthIsExact(n, k);
    }
  }

  // ---------------------------------------------------- superblocks of a picture

  /** Rounding up to a power of two in 32 bits; the mask clears the low bits. */
  function AlignPower2(value: nat, alignment: nat): nat
    requires 0 < alignment
  {
    var sum := (value + alignment - 1) % TWO_32;
    sum - sum % alignment
  }

  /** The width after super-resolution, which scales by 8 over the denominator. */
  function FrameWidth(widthMinus1: nat, superres: bool, denominator: nat): nat
    requires superres ==> 0 < denominator
  {
    var width := widthMinus1 + 1;
    if superres && denominator != 8 then (width * 8 + denominator / 2) / denominator else width
  }

  /** Superblocks of 128 or 64 pixels, counted through 4-pixel units. */
  function SuperblockCount(pixels: nat, large: bool): nat {
    var units := if large then 32 else 16;
    AlignPower2(AlignPower2(pixels, 8) / 4, units) / units
  }

  /** Accepted pictures have 16-bit dimensions, and use super-resolution only with
      the specification's denominators. */
  lemma WidthInRange(widthMinus1: nat, superres: bool, denominator: nat)
    requires widthMinus1 < 0x1_0000 && (superres ==> 9 <= denominator <= 16)
    ensures 1 <= FrameWidth(widthMinus1, superres, denominator) <= USHORT
  {
    if superres {
      var x, d := (widthMinus1 + 1) * 8 + denominator / 2, denominator;
      QuotientAtLeast(x, d, 1);
      assert d * (USHORT + 1) > x;
      QuotientBelow(x, d, USHORT + 1);
    }
  }

  /** Super-resolution scales the width by 8 over the denominator, rounded to the
      nearest integer and up from half (section 5.9.8); otherwise it is the width. */
  lemma WidthIsRounded(widthMinus1: nat, superres: bool, denominator: nat)
    requires superres ==> 0 < denominator
    ensures var w, scaled := widthMinus1 + 1, FrameWidth(widthMinus1, superres, denominator);
      if superres then 2 * denominator * scaled <= 16 * w + denominator < 2 * denominator * (scaled + 1)
      else scaled == w
  {
    if superres {
      var w, d, scaled := widthMinus1 + 1, denominator, FrameWidth(widthMinus1, superres, denominator);
      if d == 8 {
        assert scaled == w;
      } else {
        HalfUp(8 * w, d);
      }
    }
  }

  lemma HalfUp(x: nat, d: nat)
    requires 0 < d
    ensures var q := (x + d / 2) / d;
      2 * d * q <= 2 * x + d < 2 * d * (q + 1)
  {
    var q := (x + d / 2) / d;
    QuotientBounds(x + d / 2, d);
    assert 2 * d * q == 2 * (q * d);
    assert 2 * d * (q + 1) == 2 * (q * d) + 2 * d;
  }

  lemma QuotientBounds(x: nat, d: nat)
    requires 0 < d
    ensures x / d * d <= x < x / d * d + d
  {
  }

  /** The count is the number of superblocks that cover the picture (the superblock
      columns of section 5.9.15): the last one begins inside it. */
  lemma SuperblocksCover(pixels: nat, large: bool)
    requires 1 <= pixels <= USHORT
    ensures var side := if large then 128 else 64;
      var n := SuperblockCount(pixels, large);
      (n - 1) * side < pixels <= n * side && 1 <= n <= 1024
  {
    hide AlignPower2;
    var e := Aligned(pixels, 8);
    Quartered(e);
    if large {
      var n := Aligned(2 * e, 32);
      WholeUnits(n);
      assert SuperblockCount(pixels, large) == n;
      hide SuperblockCount;
      CoveredBy128(pixels, e, n);
    } else {
      var n := Aligned(2 * e, 16);
      WholeUnits(n);
      assert SuperblockCount(pixels, large) == n;
      hide SuperblockCount;
      CoveredBy64(pixels, e, n);
    }
  }

  lemma CoveredBy64(pixels: nat, e: nat, n: nat)
    requires 1 <= pixels <= USHORT && e * 8 - 8 < pixels <= e * 8 && n * 16 - 16 < 2 * e <= n * 16
    ensures (n - 1) * 64 < pixels <= n * 64 && 1 <= n <= 1024
  {
  }

  lemma CoveredBy128(pixels: nat, e: nat, n: nat)
    requires 1 <= pixels <= USHORT && e * 8 - 8 < pixels <= e * 8 && n * 32 - 32 < 2 * e <= n * 32
    ensures (n - 1) * 128 < pixels <= n * 128 && 1 <= n <= 1024
  {
  }

  /** Without a wrap the result is the next multiple of the alignment. */
  lemma Aligned(value: nat, alignment: nat) returns (q: nat)
    requires 1 <= value <= USHORT && 1 <= alignment <= 32
    ensures AlignPower2(value, alignment) == q * alignment
    ensures q * alignment - alignment < value <= q * alignment && 1 <= q
  {
    var sum := value + alignment - 1;
    assert sum % TWO_32 == sum;
    q := sum / alignment;
    assert sum == q * alignment + sum % alignment;
  }

  lemma Quartered(e: nat)
    ensures e * 8 / 4 == 2 * e
  {
  }

  lemma WholeUnits(n: nat)
    ensures n * 16 / 16 == n * 32 / 32 == n
  {
  }

  lemma {:induction false} FewTilesSmallExponent(numTiles: nat, k: nat)
    requires numTiles <= 0x100 && IsCeilLog2(numTiles, k)
    ensures k <= 8 && Pow2(k) <= 0x100
  {
    assert Pow2(4) == 16 && Pow2(8) == 0x100;
    if k > 8 {
      Pow2Monotone(8, k - 1);
    } else {
      Pow2Monotone(k, 8);
    }
  }

  lemma {:induction false} FilledFits(count: nat, w: nat, n: nat, i: nat)
    requires i < count
    ensures FilledSizes(count, w, n)[i] <= n
    decreases count
  {
    if 1 < count && i != 0 {
      FilledFits(count - 1, w, n - Min(w, n), i - 1);
    }
  }

  /** No accepted picture reaches the 32-bit wrap or the 16-bit truncation. */
  lemma PictureStaysExact(n: nat, numTiles: nat, k: nat, i: nat)
    requires 1 <= n <= 1024 && i < numTiles <= 0x100 && IsCeilLog2(numTiles, k)
    ensures Width32(n, k) == TileWidth(n, k)
    ensures FilledSizes(numTiles, TileWidth(n, k), n)[i] % USHORT == FilledSizes(numTiles, TileWidth(n, k), n)[i]
  {
    FewTilesSmallExponent(numTiles, k);
    WidthIsExact(n, k);
    FilledFits(numTiles, TileWidth(n, k), n, i);
  }

  /** The sizes of one dimension of a picture with uniform spacing. A stream that
      split the picture's superblocks with exponent `k` gets back its own layout. */
  method FillDimension(sizes: array<nat>, numTiles: nat, lengthMinus1: nat, superres: bool, denominator: nat, large: bool)
    requires lengthMinus1 < 0x1_0000 && (superres ==> 9 <= denominator <= 16)
    requires numTiles <= sizes.Length && numTiles <= 0x100
    modifies sizes
    ensures var n := SuperblockCount(FrameWidth(lengthMinus1, superres, denominator), large);
      forall k, limit :: IsCeilLog2(n, limit) && k <= limit && 0 < TileWidth(n, k) &&
                         numTiles == |SpecSizes(n, TileWidth(n, k))| ==>
        sizes[..numTiles] == SpecSizes(n, TileWidth(n, k))
    ensures sizes[numTiles..] == old(sizes[numTiles..])
  {
    var width := FrameWidth(lengthMinus1, superres, denominator);
    WidthInRange(lengthMinus1, superres, denominator);
    var n := SuperblockCount(width, large);
    SuperblocksCover(width, large);
    hide SuperblockCount, FrameWidth;
    FillUniform(sizes, numTiles, n);
    forall k, limit | IsCeilLog2(n, limit) && k <= limit && 0 < TileWidth(n, k) &&
                      numTiles == |SpecSizes(n, TileWidth(n, k))|
      ensures sizes[..numTiles] == SpecSizes(n, TileWidth(n, k))
    {
      FilledDimension(sizes[..], numTiles, n, k, limit);
      assert sizes[..][..numTiles] == sizes[..numTiles];
    }
  }

  lemma FilledDimension(sizes: seq<nat>, numTiles: nat, n: nat, k: nat, limit: nat)
    requires 1 <= n <= 1024 && numTiles <= 0x100 && numTiles <= |sizes|
    requires IsCeilLog2(n, limit) && k <= limit && 0 < TileWidth(n, k) && numTiles == |SpecSizes(n, TileWidth(n, k))|
    requires forall k :: IsCeilLog2(numTiles, k) ==>
      forall i :: 0 <= i < numTiles ==> sizes[i] == FilledSizes(numTiles, Width32(n, k), n)[i] % USHORT
    ensures sizes[..numTiles] == SpecSizes(n, TileWidth(n, k))
  {
    hide SpecSizes, FilledSizes, Width32, TileWidth, Pow2;
    UniformSizesMatchSpec(n, k, limit);
    forall i | 0 <= i < numTiles
      ensures sizes[i] == SpecSizes(n, TileWidth(n, k))[i]
    {
      PictureStaysExact(n, numTiles, k, i);
    }
  }
}
