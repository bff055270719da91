/** Order-hint arithmetic and the choice of skip-mode references
    (src/av1.c:8-15, 285-338), after sections 5.9.3 and 5.9.22 of the AV1
    specification. */
module Av1SkipMode {
  import opened Av1TileSizes

  /** Order-hint settings of a sequence; hints count modulo 2^(bitsMinus1 + 1). */
  datatype Hints = Hints(enabled: bool, bitsMinus1: nat)

  function Half(h: Hints): (m: int)
    ensures m >= 1
  {
    Pow2(h.bitsMinus1)
  }

  /** The mask formula `(diff & (m - 1)) - (diff & m)` on a two's complement
      difference, with m a power of two. */
  function RelativeDist(h: Hints, ref: int, order: int): int {
    if !h.enabled then 0
    else
      var diff, m := ref - order, Half(h);
      diff % m - diff / m % 2 * m
  }

  /** `r` is the representative of `d` modulo 2m that lies in -m..m. */
  ghost predicate SignedResidue(d: int, m: int, r: int) {
    -m <= r < m && exists j: int :: d == r + 2 * m * j
  }

  lemma MaskIsSignedResidue(h: Hints, ref: int, order: int)
    requires h.enabled
    ensures SignedResidue(ref - order, Half(h), RelativeDist(h, ref, order))
    ensures SignedResidue(ref - order, Pow2(h.bitsMinus1), RelativeDist(h, ref, order))
  {
    var d, m := ref - order, Half(h);
    var q, r := d / m, d % m;
    assert d == q * m + r;
    var j := (q + q % 2) / 2;
    assert q + q % 2 == 2 * j;
    assert q * m == (2 * j) * m - q % 2 * m;
    assert d == RelativeDist(h, ref, order) + 2 * m * j;
  }

  lemma ResidueUnique(d: int, m: int, a: int, b: int)
    requires 0 < m && SignedResidue(d, m, a) && SignedResidue(d, m, b)
    ensures a == b
  {
    var i: int :| d == a + 2 * m * i;
    var j: int :| d == b + 2 * m * j;
    assert 2 * m * (j - i) == 2 * m * j - 2 * m * i;
    if i != j {
      LargeMultiple(m, j - i);
    }
  }

  lemma LargeMultiple(m: int, k: int)
    requires 0 < m && k != 0
    ensures 2 * m * k >= 2 * m || 2 * m * k <= -2 * m
  {
    if k >= 1 {
      assert 2 * m * k == 2 * m + 2 * m * (k - 1);
      assert m * (k - 1) >= 0;
    } else {
      assert 2 * m * k == -2 * m + 2 * m * (k + 1);
      assert m * (-k - 1) >= 0;
    }
  }

  /** Distances to a common frame subtract as long as the result is in range; in
      particular for two frames on the same side of it. */
  lemma DistancesSubtract(h: Hints, x: int, y: int, c: int)
    requires h.enabled
    requires -Half(h) <= RelativeDist(h, x, c) - RelativeDist(h, y, c) < Half(h)
    ensures RelativeDist(h, x, y) == RelativeDist(h, x, c) - RelativeDist(h, y, c)
  {
    var m, a, b := Half(h), RelativeDist(h, x, c), RelativeDist(h, y, c);
    MaskIsSignedResidue(h, x, c);
    MaskIsSignedResidue(h, y, c);
    MaskIsSignedResidue(h, x, y);
    var i: int :| x - c == a + 2 * m * i;
    var j: int :| y - c == b + 2 * m * j;
    assert 2 * m * (i - j) == 2 * m * i - 2 * m * j;
    assert x - y == (a - b) + 2 * m * (i - j);
    ResidueUnique(x - y, m, RelativeDist(h, x, y), a - b);
  }

  lemma DistBounds(h: Hints, x: int, c: int)
    ensures -Half(h) <= RelativeDist(h, x, c) < Half(h)
  {
    if h.enabled {
      MaskIsSignedResidue(h, x, c);
    }
  }

  lemma SameSideAgrees(h: Hints, x: int, y: int, c: int)
    requires (RelativeDist(h, x, c) < 0 && RelativeDist(h, y, c) < 0) ||
             (RelativeDist(h, x, c) > 0 && RelativeDist(h, y, c) > 0)
    ensures RelativeDist(h, x, y) == RelativeDist(h, x, c) - RelativeDist(h, y, c)
  {
    DistBounds(h, x, c);
    DistBounds(h, y, c);
    DistancesSubtract(h, x, y, c);
  }

  // ---------------------------------------------------------------- choices

  ghost function Dists(h: Hints, refs: seq<int>, c: int): (ds: seq<int>)
    ensures |ds| == |refs|
  {
    seq(|refs|, i requires 0 <= i < |refs| => RelativeDist(h, refs[i], c))
  }

  /** `i` is the first of the nearest past references, by distance. */
  ghost predicate NearestPast(ds: seq<int>, i: int) {
    && 0 <= i < |ds| && ds[i] < 0
    && forall j :: 0 <= j < |ds| && ds[j] < 0 ==> ds[j] <= ds[i] && (j < i ==> ds[j] < ds[i])
  }

  /** `i` is the first of the nearest future references, by distance. */
  ghost predicate NearestFuture(ds: seq<int>, i: int) {
    && 0 <= i < |ds| && ds[i] > 0
    && forall j :: 0 <= j < |ds| && ds[j] > 0 ==> ds[j] >= ds[i] && (j < i ==> ds[j] > ds[i])
  }

  /** In other words: a negative distance that no other exceeds short of zero, and
      that does not occur before; and the mirror image. */
  lemma NearestIs(ds: seq<int>, i: int)
    requires 0 <= i < |ds|
    ensures NearestPast(ds, i) <==>
      ds[i] <= -1 && ds[i] !in ds[..i] && forall j :: 0 <= j < |ds| ==> !(ds[i] < ds[j] <= -1)
    ensures NearestFuture(ds, i) <==>
      ds[i] >= 1 && ds[i] !in ds[..i] && forall j :: 0 <= j < |ds| ==> !(1 <= ds[j] < ds[i])
  {
    assert forall j :: 0 <= j < i ==> ds[..i][j] == ds[j];
  }

  ghost predicate NoPast(ds: seq<int>) {
    forall j :: 0 <= j < |ds| ==> ds[j] >= 0
  }

  ghost predicate NoFuture(ds: seq<int>) {
    forall j :: 0 <= j < |ds| ==> ds[j] <= 0
  }

  /** The first loop compares candidates with each other, not with the current
      frame, and still finds the nearest on each side. */
  method FindNearest(h: Hints, refs: seq<int>, current: int) returns (forwardIdx: int, backwardIdx: int)
    ensures var ds := Dists(h, refs, current);
      && (if forwardIdx < 0 then NoPast(ds) else NearestPast(ds, forwardIdx))
      && (if backwardIdx < 0 then NoFuture(ds) else NearestFuture(ds, backwardIdx))
  {
    forwardIdx, backwardIdx := -1, -1;
    var forwardHint, backwardHint := 0, 0;
    ghost var ds := Dists(h, refs, current);
    for i := 0 to |refs|
      invariant if forwardIdx < 0 then NoPast(ds[..i])
                else NearestPast(ds[..i], forwardIdx) && forwardHint == refs[forwardIdx]
      invariant if backwardIdx < 0 then NoFuture(ds[..i])
                else NearestFuture(ds[..i], backwardIdx) && backwardHint == refs[backwardIdx]
    {
      var refHint := refs[i];
      assert ds[..i + 1] == ds[..i] + [ds[i]];
      if RelativeDist(h, refHint, current) < 0 {
        if forwardIdx >= 0 {
          SameSideAgrees(h, refHint, forwardHint, current);
        }
        if forwardIdx < 0 || RelativeDist(h, refHint, forwardHint) > 0 {
          forwardIdx, forwardHint := i, refHint;
        }
      } else if RelativeDist(h, refHint, current) > 0 {
        if backwardIdx >= 0 {
          SameSideAgrees(h, refHint, backwardHint, current);
        }
        if backwardIdx < 0 || RelativeDist(h, refHint, backwardHint) < 0 {
          backwardIdx, backwardHint := i, refHint;
        }
      }
    }
    assert ds[..|refs|] == ds;
  }

  /** The second loop looks for the nearest reference before the forward one. */
  method FindSecond(h: Hints, refs: seq<int>, forwardHint: int) returns (secondIdx: int)
    ensures var ds := Dists(h, refs, forwardHint);
      if secondIdx < 0 then NoPast(ds) else NearestPast(ds, secondIdx)
  {
    secondIdx := -1;
    var secondHint := 0;
    ghost var ds := Dists(h, refs, forwardHint);
    for i := 0 to |refs|
      invariant if secondIdx < 0 then NoPast(ds[..i])
                else NearestPast(ds[..i], secondIdx) && secondHint == refs[secondIdx]
    {
      var refHint := refs[i];
      assert ds[..i + 1] == ds[..i] + [ds[i]];
      if RelativeDist(h, refHint, forwardHint) < 0 {
        if secondIdx >= 0 {
          SameSideAgrees(h, refHint, secondHint, forwardHint);
        }
        if secondIdx < 0 || RelativeDist(h, refHint, secondHint) > 0 {
          secondIdx, secondHint := i, refHint;
        }
      }
    }
    assert ds[..|refs|] == ds;
  }

  /** The choice on each side is unique, so the pair is determined. */
  lemma NearestUnique(ds: seq<int>, i: int, j: int)
    ensures NearestPast(ds, i) && NearestPast(ds, j) ==> i == j
    ensures NearestFuture(ds, i) && NearestFuture(ds, j) ==> i == j
  {
  }

  /** The pair of reference names written for skip mode: the nearest past and the
      nearest future reference, in order and counted from 1; without a future one, the nearest past and the
      nearest before that; 0, 0 when there is no such pair. */
  method SkipModeFrames(h: Hints, refs: seq<int>, current: int) returns (frame0: nat, frame1: nat)
    ensures var ds := Dists(h, refs, current);
      && (NoPast(ds) ==> frame0 == 0 && frame1 == 0)
      && (forall f, b :: NearestPast(ds, f) && NearestFuture(ds, b) ==>
            frame0 <= frame1 && {frame0, frame1} == {f + 1, b + 1})
      && (forall f :: NearestPast(ds, f) && NoFuture(ds) ==>
            var behind := Dists(h, refs, refs[f]);
            && (NoPast(behind) ==> frame0 == 0 && frame1 == 0)
            && (forall s :: NearestPast(behind, s) ==>
                  frame0 <= frame1 && {frame0, frame1} == {f + 1, s + 1}))
  {
    hide Dists;
    frame0, frame1 := 0, 0;
    ghost var ds := Dists(h, refs, current);
    var forward, backward := FindNearest(h, refs, current);
    forall i, j
      ensures NearestPast(ds, i) && NearestPast(ds, j) ==> i == j
      ensures NearestFuture(ds, i) && NearestFuture(ds, j) ==> i == j
    {
      NearestUnique(ds, i, j);
    }
    if forward < 0 {
      return;
    }
    var other := backward;
    if backward < 0 {
      other := FindSecond(h, refs, refs[forward]);
      ghost var behind := Dists(h, refs, refs[forward]);
      forall i, j
        ensures NearestPast(behind, i) && NearestPast(behind, j) ==> i == j
      {
        NearestUnique(behind, i, j);
      }
    }
    if other >= 0 {
      frame0 := 1 + if forward < other then forward else other;
      frame1 := 1 + if forward < other then other else forward;
    }
  }

  /** Behind the forward reference means farther from the current frame, except
      that a forward reference exactly half the cycle away also counts every
      frame at distance zero. */
  lemma BehindForward(h: Hints, x: int, f: int, c: int)
    requires RelativeDist(h, f, c) < 0 && RelativeDist(h, x, c) <= 0
    ensures RelativeDist(h, x, f) < 0 <==>
      (RelativeDist(h, x, c) < RelativeDist(h, f, c) ||
       (RelativeDist(h, f, c) == -Half(h) && RelativeDist(h, x, c) == 0))
  {
    var m, dx, df := Half(h), RelativeDist(h, x, c), RelativeDist(h, f, c);
    DistBounds(h, x, c);
    DistBounds(h, f, c);
    if dx - df < m {
      DistancesSubtract(h, x, f, c);
    } else {
      assert dx == 0 && df == -m;
      HalfCycle(h, x, f, c);
    }
  }

  /** A frame half a cycle behind another is also half a cycle ahead of it. */
  lemma HalfCycle(h: Hints, x: int, f: int, c: int)
    requires h.enabled && RelativeDist(h, x, c) == 0 && RelativeDist(h, f, c) == -Half(h)
    ensures RelativeDist(h, x, f) == -Half(h)
  {
    var m := Half(h);
    MaskIsSignedResidue(h, x, c);
    MaskIsSignedResidue(h, f, c);
    MaskIsSignedResidue(h, x, f);
    var i: int :| x - c == 0 + 2 * m * i;
    var j: int :| f - c == -m + 2 * m * j;
    assert 2 * m * (i - j + 1) == 2 * m * i - 2 * m * j + 2 * m;
    assert x - f == -m + 2 * m * (i - j + 1);
    ResidueUnique(x - f, m, RelativeDist(h, x, f), -m);
  }

  /** With no future reference, the second choice is a past reference beyond the
      first exactly when the first is less than half a cycle away or no
      reference repeats the current hint. */
  lemma SecondIsPast(h: Hints, refs: seq<int>, c: int, f: int, s: int)
    requires NearestPast(Dists(h, refs, c), f) && NoFuture(Dists(h, refs, c))
    requires NearestPast(Dists(h, refs, refs[f]), s)
    ensures var ds := Dists(h, refs, c);
      ds[s] < ds[f] <==> ds[f] != -Half(h) || 0 !in ds
  {
    var ds := Dists(h, refs, c);
    assert Dists(h, refs, refs[f])[s] < 0;
    assert ds[s] <= 0;
    BehindForward(h, refs[s], refs[f], c);
    DistBounds(h, refs[s], c);
    assert ds[s] in ds;
  }

  /** The wrap is real: with one-bit hints and seven references, of which the
      first is the only past one, a reference that repeats the current hint is
      taken for a second past frame. */
  lemma SecondCanBeCurrent()
    ensures var h, refs := Hints(true, 0), [1, 0, 0, 0, 0, 0, 0];
      && NearestPast(Dists(h, refs, 0), 0) && NoFuture(Dists(h, refs, 0))
      && NearestPast(Dists(h, refs, refs[0]), 1) && Dists(h, refs, 0)[1] == 0
  {
    var h, refs := Hints(true, 0), [1, 0, 0, 0, 0, 0, 0];
    assert RelativeDist(h, 1, 0) == -1 && RelativeDist(h, 0, 0) == 0;
    assert RelativeDist(h, 0, 1) == -1 && RelativeDist(h, 1, 1) == 0;
    assert Dists(h, refs, 0) == [-1, 0, 0, 0, 0, 0, 0];
    assert Dists(h, refs, 1) == [0, -1, -1, -1, -1, -1, -1];
  }
}
