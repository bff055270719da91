/** The logarithmic timing histogram of src/stats.c: buckets that double from one
    microsecond, and percentiles reported as bucket upper bounds. */
module TimingHistograms {
  import opened Basics

  const BUCKETS: nat := 32
  const LAST: nat := BUCKETS - 1
  const FIRST_UPPER: nat := 1000

  /** Where bucket `b` of the doubling sequence ends. */
  function Bound(b: nat): (r: nat)
    ensures r >= FIRST_UPPER
  {
    if b == 0 then FIRST_UPPER else 2 * Bound(b - 1)
  }

  /** What is reported for bucket `b`; the last one is unbounded. */
  function Upper(b: nat): nat {
    if b == LAST then UINT64_MAX else Bound(b)
  }

  /** The bucket of a sample, from bucket `b` on. */
  function BucketFrom(ns: nat, b: nat): (r: nat)
    requires b <= LAST
    ensures b <= r <= LAST
    decreases LAST - b
  {
    if ns > Bound(b) && b < LAST then BucketFrom(ns, b + 1) else b
  }

  lemma {:induction false} BoundMonotone(a: nat, b: nat)
    requires a <= b
    ensures Bound(a) <= Bound(b)
    decreases b
  {
    if a < b {
      BoundMonotone(a, b - 1);
    }
  }

  /** A sample's bucket is at most `k` exactly when the sample is at most its bound. */
  lemma {:induction false} BucketBound(ns: nat, b: nat, k: nat)
    requires b <= k < LAST
    ensures BucketFrom(ns, b) <= k <==> ns <= Bound(k)
    decreases LAST - b
  {
    BoundMonotone(b, k);
    if ns > Bound(b) && b < k {
      BucketBound(ns, b + 1, k);
    }
  }

  // --------------------------------------------------------------- counting

  ghost function CountAt(samples: seq<nat>, b: nat): nat {
    if samples == [] then 0
    else CountAt(samples[..|samples| - 1], b) + if BucketFrom(samples[|samples| - 1], 0) == b then 1 else 0
  }

  /** How many samples are at or below `limit`. */
  ghost function CountUpTo(samples: seq<nat>, limit: nat): nat {
    if samples == [] then 0
    else CountUpTo(samples[..|samples| - 1], limit) + if samples[|samples| - 1] <= limit then 1 else 0
  }

  /** As a number of places in the history. */
  lemma {:induction false} CountIsCardinality(samples: seq<nat>, limit: nat)
    ensures CountUpTo(samples, limit) == |set i | 0 <= i < |samples| && samples[i] <= limit|
  {
    if samples != [] {
      var n := |samples| - 1;
      CountIsCardinality(samples[..n], limit);
      var all := set i | 0 <= i < |samples| && samples[i] <= limit;
      var before := set i | 0 <= i < n && samples[..n][i] <= limit;
      assert all == before + (if samples[n] <= limit then {n} else {});
    }
  }

  /** Samples in the buckets 0..b together. */
  ghost function CountBelow(samples: seq<nat>, b: nat): nat {
    CountAt(samples, b) + if b == 0 then 0 else CountBelow(samples, b - 1)
  }

  lemma {:induction false} CountBelowGrows(samples: seq<nat>, ns: nat, b: nat)
    requires b <= LAST
    ensures CountBelow(samples + [ns], b) ==
      CountBelow(samples, b) + if BucketFrom(ns, 0) <= b then 1 else 0
    decreases b
  {
    assert (samples + [ns])[..|samples|] == samples;
    if b != 0 {
      CountBelowGrows(samples, ns, b - 1);
    }
  }

  lemma {:induction false} CountBelowEmpty(b: nat)
    ensures CountBelow([], b) == 0
  {
    if b != 0 {
      CountBelowEmpty(b - 1);
    }
  }

  /** The buckets up to `b` hold exactly the samples up to its bound. */
  lemma {:induction false} CountsAgree(samples: seq<nat>, b: nat)
    requires b <= LAST && forall i :: 0 <= i < |samples| ==> samples[i] <= UINT64_MAX
    ensures CountBelow(samples, b) == CountUpTo(samples, Upper(b))
    decreases |samples|
  {
    if samples == [] {
      CountBelowEmpty(b);
    } else {
      var n := |samples| - 1;
      assert samples == samples[..n] + [samples[n]];
      CountsAgree(samples[..n], b);
      CountBelowGrows(samples[..n], samples[n], b);
      if b < LAST {
        BucketBound(samples[n], 0, b);
      }
    }
  }

  lemma {:induction false} CountUpToAll(samples: seq<nat>)
    requires forall i :: 0 <= i < |samples| ==> samples[i] <= UINT64_MAX
    ensures CountUpTo(samples, UINT64_MAX) == |samples|
  {
    if samples != [] {
      CountUpToAll(samples[..|samples| - 1]);
    }
  }

  // ------------------------------------------------------------------ ranks

  /** The split rank computation, which avoids multiplying the count. */
  function Rank(count: nat, p: nat): nat {
    count / 100 * p + (count % 100 * p + 99) / 100
  }

  /** It is the rounded-up percentage. */
  lemma RankIsCeiling(count: nat, p: nat)
    ensures Rank(count, p) == (count * p + 99) / 100
  {
    var q, r := count / 100, count % 100;
    assert count * p == 100 * (q * p) + r * p;
  }

  lemma PercentGrows(count: nat, p: nat, p': nat)
    requires p <= p'
    ensures (p * count + 99) / 100 <= (p' * count + 99) / 100
  {
    MulMonotone(p, p', count);
    HundredthsGrow(p * count, p' * count);
  }

  lemma HundredthsGrow(a: nat, b: nat)
    requires a <= b
    ensures (a + 99) / 100 <= (b + 99) / 100
  {
  }

  lemma RankWithin(count: nat, p: nat)
    requires p <= 100
    ensures Rank(count, p) <= count
  {
    RankIsCeiling(count, p);
    hide Rank;
    MulMonotone(p, 100, count);
    HundredthsWithin(p * count, count);
  }

  lemma HundredthsWithin(a: nat, count: nat)
    requires a <= 100 * count
    ensures (a + 99) / 100 <= count
  {
  }

  /** The next smaller bound. */
  function Smaller(upper: nat): nat {
    if upper == UINT64_MAX then 1_073_741_824_000 else upper / 2
  }

  /** `upper` is the least bound, of the doublings of one microsecond and the
      unbounded last one, that `p` percent of the samples reach. */
  ghost predicate Reported(samples: seq<nat>, p: nat, upper: nat) {
    && (upper == UINT64_MAX || exists b :: 0 <= b < 31 && upper == 1000 * Twice(b))
    && (p * |samples| + 99) / 100 <= CountUpTo(samples, upper)
    && (upper != 1000 ==> CountUpTo(samples, Smaller(upper)) < (p * |samples| + 99) / 100)
  }

  /** Two to the power of `b`. */
  function Twice(b: nat): nat {
    if b == 0 then 1 else 2 * Twice(b - 1)
  }

  lemma {:induction false} BoundIs(b: nat)
    ensures Bound(b) == 1000 * Twice(b)
  {
    if b != 0 {
      BoundIs(b - 1);
    }
  }

  lemma ReportedBucket(samples: seq<nat>, p: nat, upper: nat, bucket: nat)
    requires bucket <= LAST && upper == Upper(bucket)
    requires (p * |samples| + 99) / 100 <= CountUpTo(samples, upper)
    requires 0 < bucket ==> CountUpTo(samples, Bound(bucket - 1)) < (p * |samples| + 99) / 100
    ensures Reported(samples, p, upper)
  {
    hide CountUpTo;
    BoundIs(bucket);
    BoundsFit(bucket);
    if bucket == LAST {
      assert Bound(31) == 2 * Bound(30);
    } else if 0 < bucket {
      assert Bound(bucket) == 2 * Bound(bucket - 1);
      BoundIs(bucket - 1);
    }
  }

  class TimingHistogram {
    const buckets: array<nat>
    ghost var samples: seq<nat>

    ghost predicate Valid()
      reads this, buckets
    {
      && buckets.Length == BUCKETS
      && (forall i :: 0 <= i < |samples| ==> samples[i] <= UINT64_MAX)
      && (forall b :: 0 <= b < BUCKETS ==> buckets[b] == CountAt(samples, b))
    }

    constructor ()
      ensures Valid() && samples == [] && fresh(buckets)
    {
      buckets := new nat[BUCKETS](_ => 0);
      samples := [];
    }

    method Add(ns: nat)
      requires Valid() && ns <= UINT64_MAX
      modifies buckets, this`samples
      ensures Valid() && samples == old(samples) + [ns]
    {
      var bucket, upper := 0, FIRST_UPPER;
      while ns > upper && bucket < LAST
        invariant bucket <= LAST && upper == Bound(bucket)
        invariant BucketFrom(ns, 0) == BucketFrom(ns, bucket)
        decreases LAST - bucket
      {
        upper := upper * 2;
        bucket := bucket + 1;
      }
      assert (samples + [ns])[..|samples|] == samples;
      buckets[bucket] := buckets[bucket] + 1;
      samples := samples + [ns];
    }

    /** The bound reported for one percentile: enough samples are at or below it,
        and too few are at or below the next smaller bound. */
    method Percentile(p: nat) returns (upper: nat, bucket: nat)
      requires Valid() && p <= 100 && samples != []
      ensures bucket <= LAST && upper == Upper(bucket)
      ensures (p * |samples| + 99) / 100 <= CountUpTo(samples, upper)
      ensures 0 < bucket ==> CountUpTo(samples, Bound(bucket - 1)) < (p * |samples| + 99) / 100
      ensures 0 < bucket < LAST ==> upper / 2 == Bound(bucket - 1)
    {
      var count := Total();
      var rank := count / 100 * p + (count % 100 * p + 99) / 100;
      RankIsCeiling(count, p);
      RankWithin(count, p);
      assert count * p == p * |samples|;
      var cumulative := 0;
      for i := 0 to BUCKETS
        invariant cumulative == if i == 0 then 0 else CountBelow(samples, i - 1)
        invariant 0 < i ==> cumulative < rank
      {
        cumulative := cumulative + buckets[i];
        CountsAgree(samples, i);
        if cumulative >= rank {
          if 0 < i {
            CountsAgree(samples, i - 1);
          }
          return if i == LAST then UINT64_MAX else Bound(i), i;
        }
      }
      CountsAgree(samples, LAST);
      CountUpToAll(samples);
      assert false;
    }

    method Total() returns (count: nat)
      requires Valid()
      ensures count == |samples|
    {
      count := 0;
      for i := 0 to BUCKETS
        invariant count == if i == 0 then 0 else CountBelow(samples, i - 1)
      {
        count := count + buckets[i];
      }
      CountsAgree(samples, LAST);
      CountUpToAll(samples);
    }

    /** The three percentiles that are logged are sound and tight, and come out in
        order; an empty histogram logs nothing. */
    method Log() returns (logged: bool, p50: nat, p95: nat, p99: nat)
      requires Valid()
      ensures logged <==> samples != []
      ensures p50 <= p95 <= p99
      ensures logged ==> Reported(samples, 50, p50) && Reported(samples, 95, p95) && Reported(samples, 99, p99)
    {
      logged, p50, p95, p99 := false, 0, 0, 0;
      var count := Total();
      if count == 0 {
        return;
      }
      var a, b, c;
      p50, a := Percentile(50);
      p95, b := Percentile(95);
      p99, c := Percentile(99);
      logged := true;
      ReportedBucket(samples, 50, p50, a);
      ReportedBucket(samples, 95, p95, b);
      ReportedBucket(samples, 99, p99, c);
      BucketsInOrder(samples, 50, a, 95, b);
      BucketsInOrder(samples, 95, b, 99, c);
    }
  }

  lemma {:induction false} CountUpToMonotone(samples: seq<nat>, a: nat, b: nat)
    requires a <= b
    ensures CountUpTo(samples, a) <= CountUpTo(samples, b)
  {
    if samples != [] {
      CountUpToMonotone(samples[..|samples| - 1], a, b);
    }
  }

  lemma {:induction false} BoundsFit(b: nat)
    requires b <= LAST
    ensures Bound(b) <= Bound(LAST) == 2_147_483_648_000
  {
    BoundMonotone(b, LAST);
    assert Bound(4) == 16_000;
    assert Bound(8) == 256_000;
    assert Bound(12) == 4_096_000;
    assert Bound(16) == 65_536_000;
    assert Bound(20) == 1_048_576_000;
    assert Bound(24) == 16_777_216_000;
    assert Bound(28) == 268_435_456_000;
    assert Bound(31) == 2_147_483_648_000;
  }

  /** A larger percentile never reports a smaller bucket. */
  lemma BucketsInOrder(samples: seq<nat>, p: nat, a: nat, p': nat, b: nat)
    requires p <= p' && a <= LAST && b <= LAST
    requires 0 < a ==> CountUpTo(samples, Bound(a - 1)) < (p * |samples| + 99) / 100
    requires (p' * |samples| + 99) / 100 <= CountUpTo(samples, Upper(b))
    ensures Upper(a) <= Upper(b)
  {
    PercentGrows(|samples|, p, p');
    BoundsFit(a);
    if b < a {
      BoundMonotone(b, a - 1);
      CountUpToMonotone(samples, Bound(b), Bound(a - 1));
    } else {
      BoundMonotone(a, b);
    }
  }
}
