/** The latency histogram (`src/metrics/histogram.rs:12-102`), over reals. Its bounds are the positive,
    strictly ascending ones that `src/metrics/config.rs:110-119` supplies. */
module Histogram {
  predicate GoodBounds(bounds: seq<real>) {
    && bounds != [] && bounds[0] > 0.0
    && forall i, j | 0 <= i < j < |bounds| :: bounds[i] < bounds[j]
  }

  // ---------------------------------------------------------------- buckets

  /** The first bucket whose bound is not below `ms`, or the overflow bucket. */
  predicate InBucket(bounds: seq<real>, ms: real, b: nat) {
    && b <= |bounds|
    && (b < |bounds| ==> ms <= bounds[b])
    && forall i | 0 <= i < b :: bounds[i] < ms
  }

  function BucketFrom(bounds: seq<real>, ms: real, i: nat): (b: nat)
    requires i <= |bounds| && forall j | 0 <= j < i :: bounds[j] < ms
    ensures InBucket(bounds, ms, b)
    decreases |bounds| - i
  {
    if i == |bounds| || ms <= bounds[i] then i else BucketFrom(bounds, ms, i + 1)
  }

  function BucketOf(bounds: seq<real>, ms: real): (b: nat)
    ensures InBucket(bounds, ms, b)
  {
    BucketFrom(bounds, ms, 0)
  }

  /** The bucket counts after a sequence of observations. */
  function Tally(bounds: seq<real>, seen: seq<real>): (counts: seq<nat>)
    ensures |counts| == |bounds| + 1
  {
    if seen == [] then seq(|bounds| + 1, _ => 0)
    else
      var n := |seen| - 1;
      var before, b := Tally(bounds, seen[..n]), BucketOf(bounds, seen[n]);
      before[b := before[b] + 1]
  }

  function Total(seen: seq<real>): real {
    if seen == [] then 0.0 else Total(seen[..|seen| - 1]) + seen[|seen| - 1]
  }

  /** The observations in the buckets before `i`. */
  function Cumulative(counts: seq<nat>, i: nat): nat
    requires i <= |counts|
  {
    if i == 0 then 0 else Cumulative(counts, i - 1) + counts[i - 1]
  }

  // ---------------------------------------------------------------- the estimate

  /** The bucket `quantile` stops at, from bucket `i` on; `|counts|` when it runs through. */
  function StopFrom(counts: seq<nat>, rank: real, i: nat): (b: nat)
    requires i <= |counts|
    ensures i <= b <= |counts|
    decreases |counts| - i
  {
    if i == |counts| || (Cumulative(counts, i + 1) as real >= rank && counts[i] > 0) then i
    else StopFrom(counts, rank, i + 1)
  }

  function Stop(counts: seq<nat>, rank: real): (b: nat)
    ensures b <= |counts|
  {
    StopFrom(counts, rank, 0)
  }

  function Lower(bounds: seq<real>, b: nat): real
    requires b <= |bounds|
  {
    if b == 0 then 0.0 else bounds[b - 1]
  }

  /** The point `pos` of the way through a bucket `width` wide, on the scale from `lower` to `upper`. */
  function Interpolate(lower: real, upper: real, pos: real, width: real): real
    requires width > 0.0
  {
    lower + pos / width * (upper - lower)
  }

  lemma StopsAtFull(counts: seq<nat>, rank: real, i: nat)
    requires i <= |counts|
    ensures var b := StopFrom(counts, rank, i);
      && (b < |counts| ==> Cumulative(counts, b + 1) as real >= rank && counts[b] > 0)
      && forall j | i <= j < b :: Cumulative(counts, j + 1) as real < rank || counts[j] == 0
    decreases |counts| - i
  {
  }

  function EstimateAt(bounds: seq<real>, counts: seq<nat>, rank: real): real
    requires |counts| == |bounds| + 1 && bounds != []
  {
    var b := Stop(counts, rank);
    StopsAtFull(counts, rank, 0);
    if b > |bounds| then bounds[|bounds| - 1]
    else if b == |bounds| then Lower(bounds, b)
    else Interpolate(Lower(bounds, b), bounds[b], rank - Cumulative(counts, b) as real, counts[b] as real)
  }

  function RealRank(q: real, n: nat): real {
    q * n as real
  }

  function Estimate(bounds: seq<real>, counts: seq<nat>, count: nat, q: real): real
    requires |counts| == |bounds| + 1 && bounds != []
  {
    if count == 0 then 0.0 else EstimateAt(bounds, counts, RealRank(q, count))
  }

  /** The sum kept is each observation's own, whichever way they are taken together. */
  lemma {:induction false} TotalAdds(seen: seq<real>, more: seq<real>)
    ensures Total(seen + more) == Total(seen) + Total(more) && (|seen| == 1 ==> Total(seen) == seen[0])
  {
    if more == [] {
      assert seen + more == seen;
      if |seen| == 1 {
        assert Total(seen[..0]) == 0.0;
      }
    } else {
      var n := |more| - 1;
      assert (seen + more)[..|seen| + n] == seen + more[..n];
      TotalAdds(seen, more[..n]);
    }
  }

  // ---------------------------------------------------------------- order statistics

  function CountBelow(seen: seq<real>, x: real): (n: nat)
    ensures n <= |seen|
  {
    if seen == [] then 0
    else CountBelow(seen[..|seen| - 1], x) + if seen[|seen| - 1] < x then 1 else 0
  }

  function CountUpTo(seen: seq<real>, x: real): (n: nat)
    ensures n <= |seen|
  {
    if seen == [] then 0
    else CountUpTo(seen[..|seen| - 1], x) + if seen[|seen| - 1] <= x then 1 else 0
  }

  /** `x` is the `k`-th smallest of the observations, counting from one. */
  predicate OrderStatistic(seen: seq<real>, k: int, x: real) {
    x in seen && CountBelow(seen, x) < k <= CountUpTo(seen, x)
  }

  function Ceil(x: real): (n: int)
    ensures (n - 1) as real < x <= n as real
  {
    -((-x).Floor)
  }

  function AtLeastOne(rank: real): int {
    if Ceil(rank) < 1 then 1 else Ceil(rank)
  }

  /** The rank the `q`-quantile of `n` observations stands for. */
  function Rank(q: real, n: nat): int {
    AtLeastOne(RealRank(q, n))
  }

  /** How close an estimate is: in the bucket of `x`, or the lower bound of the overflow bucket. */
  predicate Near(bounds: seq<real>, estimate: real, x: real) {
    var b := BucketOf(bounds, x);
    if b == |bounds| then |bounds| > 0 && estimate == bounds[b - 1] < x
    else Lower(bounds, b) <= estimate <= bounds[b] && Lower(bounds, b) <= x <= bounds[b]
  }

  // ---------------------------------------------------------------- the histogram

  class Histogram {
    const bounds: seq<real>
    const counts: array<nat>
    var sumMs: real
    var count: nat
    ghost var seen: seq<real>

    ghost predicate Valid()
      reads this, counts
    {
      && GoodBounds(bounds)
      && counts[..] == Tally(bounds, seen) && count == |seen| && sumMs == Total(seen)
    }

    constructor (bounds: seq<real>)
      requires GoodBounds(bounds)
      ensures Valid() && seen == [] && this.bounds == bounds && fresh(counts)
    {
      this.bounds := bounds;
      counts := new nat[|bounds| + 1](_ => 0);
      sumMs, count, seen := 0.0, 0, [];
    }

    method Observe(ms: real)
      requires Valid()
      modifies this, counts
      ensures Valid() && seen == old(seen) + [ms]
    {
      var idx := 0;
      while idx < |bounds| && ms > bounds[idx]
        invariant idx <= |bounds| && forall i | 0 <= i < idx :: bounds[i] < ms
        invariant Valid() && seen == old(seen)
      {
        idx := idx + 1;
      }
      OneBucket(bounds, ms, idx, BucketOf(bounds, ms));
      counts[idx] := counts[idx] + 1;
      sumMs, count := sumMs + ms, count + 1;
      seen := seen + [ms];
      assert seen[..|seen| - 1] == old(seen);
    }

    method Quantile(q: real) returns (r: real)
      requires Valid()
      ensures r == Estimate(bounds, Tally(bounds, seen), |seen|, q)
      ensures seen == [] ==> r == 0.0
      ensures seen != [] && 0.0 <= q <= 1.0 && (forall o | o in seen :: o >= 0.0) ==>
        forall x | OrderStatistic(seen, Rank(q, |seen|), x) :: Near(bounds, r, x)
    {
      EstimateIsNear(bounds, seen, q);
      if count == 0 {
        return 0.0;
      }
      var rank := RealRank(q, count);
      var cumulative := 0;
      StopsAtFull(counts[..], rank, 0);
      for i := 0 to counts.Length
        invariant cumulative == Cumulative(counts[..], i)
        invariant Stop(counts[..], rank) == StopFrom(counts[..], rank, i)
      {
        var next := cumulative + counts[i];
        if next as real >= rank && counts[i] > 0 {
          var lower := if i == 0 then 0.0 else bounds[i - 1];
          if i == |bounds| {
            return lower;
          }
          return Interpolate(lower, bounds[i], rank - cumulative as real, counts[i] as real);
        }
        cumulative := next;
      }
      return bounds[|bounds| - 1];
    }

    /** Each bound with the number of observations up to it. */
    method CumulativeBuckets() returns (out: seq<(real, nat)>)
      requires Valid()
      ensures |out| == |bounds|
      ensures forall i | 0 <= i < |bounds| :: out[i] == (bounds[i], CountUpTo(seen, bounds[i]))
    {
      out := [];
      var cumulative := 0;
      for i := 0 to |bounds|
        invariant |out| == i && cumulative == Cumulative(counts[..], i)
        invariant forall j | 0 <= j < i :: out[j] == (bounds[j], CountUpTo(seen, bounds[j]))
      {
        cumulative := cumulative + counts[i];
        CumulativeCounts(bounds, seen, i);
        out := out + [(bounds[i], cumulative)];
      }
    }
  }

  lemma OneBucket(bounds: seq<real>, ms: real, a: nat, b: nat)
    requires InBucket(bounds, ms, a) && InBucket(bounds, ms, b)
    ensures a == b
  {
  }

  // ---------------------------------------------------------------- what the counters count

  lemma {:induction false} BumpCumulative(counts: seq<nat>, b: nat, i: nat)
    requires b < |counts| && i <= |counts|
    ensures Cumulative(counts[b := counts[b] + 1], i) == Cumulative(counts, i) + if b < i then 1 else 0
  {
    if i > 0 {
      BumpCumulative(counts, b, i - 1);
    }
  }

  lemma {:induction false} NothingYet(n: nat, i: nat)
    requires i <= n
    ensures Cumulative(seq(n, _ => 0), i) == 0
  {
    if i > 0 {
      NothingYet(n, i - 1);
    }
  }

  /** The buckets up to a bound together hold exactly the observations not above it. */
  lemma {:induction false} CumulativeCounts(bounds: seq<real>, seen: seq<real>, i: nat)
    requires GoodBounds(bounds) && i < |bounds|
    ensures Cumulative(Tally(bounds, seen), i + 1) == CountUpTo(seen, bounds[i])
  {
    if seen == [] {
      NothingYet(|bounds| + 1, i + 1);
    } else {
      var n := |seen| - 1;
      CumulativeCounts(bounds, seen[..n], i);
      BumpCumulative(Tally(bounds, seen[..n]), BucketOf(bounds, seen[n]), i + 1);
    }
  }

  /** And all of them together hold every observation. */
  lemma {:induction false} CumulativeTotal(bounds: seq<real>, seen: seq<real>)
    ensures Cumulative(Tally(bounds, seen), |bounds| + 1) == |seen|
  {
    if seen == [] {
      NothingYet(|bounds| + 1, |bounds| + 1);
    } else {
      var n := |seen| - 1;
      CumulativeTotal(bounds, seen[..n]);
      BumpCumulative(Tally(bounds, seen[..n]), BucketOf(bounds, seen[n]), |bounds| + 1);
    }
  }

  lemma {:induction false} CumulativeAscends(counts: seq<nat>, i: nat, j: nat)
    requires i <= j <= |counts|
    ensures Cumulative(counts, i) <= Cumulative(counts, j)
  {
    if i < j {
      CumulativeAscends(counts, i, j - 1);
    }
  }

  // ---------------------------------------------------------------- where the estimate stops

  /** The loop passes over a prefix of buckets only while their observations fall short of the rank. */
  lemma {:induction false} Short(counts: seq<nat>, rank: real, i: nat)
    requires i <= Stop(counts, rank)
    ensures Cumulative(counts, i) == 0 || Cumulative(counts, i) as real < rank
  {
    if i > 0 {
      Short(counts, rank, i - 1);
      StopsAtFull(counts, rank, 0);
    }
  }

  /** The fallback behind the loop answers exactly for the ranks beyond the last observation. */
  lemma FallbackExactly(bounds: seq<real>, seen: seq<real>, rank: real)
    requires seen != []
    ensures Stop(Tally(bounds, seen), rank) == |bounds| + 1 <==> rank > |seen| as real
    ensures rank > |seen| as real && bounds != [] ==>
      EstimateAt(bounds, Tally(bounds, seen), rank) == bounds[|bounds| - 1]
  {
    var counts := Tally(bounds, seen);
    var b := Stop(counts, rank);
    CumulativeTotal(bounds, seen);
    if b == |bounds| + 1 {
      Short(counts, rank, b);
    } else {
      StopsAtFull(counts, rank, 0);
      CumulativeAscends(counts, b + 1, |bounds| + 1);
    }
  }

  lemma QuantileRank(q: real, n: nat)
    requires 0.0 <= q <= 1.0
    ensures 0.0 <= RealRank(q, n) <= n as real
  {
    Product(q, n as real);
    Product(1.0 - q, n as real);
    assert (1.0 - q) * n as real == n as real - q * n as real;
  }

  /** For a rank among the observations the loop stops at the one bucket that holds it. */
  lemma StopHoldsRank(bounds: seq<real>, seen: seq<real>, rank: real)
    requires seen != [] && 0.0 <= rank <= |seen| as real
    ensures var counts, b := Tally(bounds, seen), Stop(Tally(bounds, seen), rank);
      && b <= |bounds| && counts[b] > 0
      && Cumulative(counts, b) < AtLeastOne(rank) <= Cumulative(counts, b + 1)
      && Cumulative(counts, b) as real <= rank <= Cumulative(counts, b + 1) as real
  {
    var counts := Tally(bounds, seen);
    assert Stop(counts, rank) <= |bounds| by {
      FallbackExactly(bounds, seen, rank);
    }
    StopCrosses(counts, rank);
  }

  lemma StopCrosses(counts: seq<nat>, rank: real)
    requires rank >= 0.0 && Stop(counts, rank) < |counts|
    ensures var b := Stop(counts, rank);
      && counts[b] > 0
      && Cumulative(counts, b) < AtLeastOne(rank) <= Cumulative(counts, b + 1)
      && Cumulative(counts, b) as real <= rank <= Cumulative(counts, b + 1) as real
  {
    var b := Stop(counts, rank);
    Short(counts, rank, b);
    StopsAtFull(counts, rank, 0);
    assert Cumulative(counts, b + 1) == Cumulative(counts, b) + counts[b];
    RankCrosses(rank, Cumulative(counts, b), counts[b]);
  }

  /** The whole rank lies where the real one does. */
  lemma RankCrosses(rank: real, before: nat, here: nat)
    requires here > 0 && rank >= 0.0 && rank <= (before + here) as real
    requires before == 0 || before as real < rank
    ensures before < AtLeastOne(rank) <= before + here && before as real <= rank
  {
    assert rank <= Ceil(rank) as real;
    assert (Ceil(rank) - 1) as real < (before + here) as real;
  }

  // ---------------------------------------------------------------- order statistics and buckets

  lemma {:induction false} CountsOrdered(seen: seq<real>, a: real, b: real)
    ensures a < b ==> CountUpTo(seen, a) <= CountBelow(seen, b)
    ensures a <= b ==> CountUpTo(seen, a) <= CountUpTo(seen, b)
  {
    if seen != [] {
      CountsOrdered(seen[..|seen| - 1], a, b);
    }
  }

  /** The bucket of the `k`-th smallest observation is the one the running count crosses `k` in. */
  lemma BucketOfRank(bounds: seq<real>, seen: seq<real>, k: int, x: real)
    requires GoodBounds(bounds) && OrderStatistic(seen, k, x)
    ensures var counts, b := Tally(bounds, seen), BucketOf(bounds, x);
      Cumulative(counts, b) < k <= Cumulative(counts, b + 1)
  {
    var b := BucketOf(bounds, x);
    if b == |bounds| {
      CumulativeTotal(bounds, seen);
    } else {
      CumulativeCounts(bounds, seen, b);
      CountsOrdered(seen, x, bounds[b]);
    }
    if b > 0 {
      CumulativeCounts(bounds, seen, b - 1);
      CountsOrdered(seen, bounds[b - 1], x);
    }
  }

  lemma OneCrossing(counts: seq<nat>, k: int, a: nat, b: nat)
    requires a < |counts| && b < |counts|
    requires Cumulative(counts, a) < k <= Cumulative(counts, a + 1)
    requires Cumulative(counts, b) < k <= Cumulative(counts, b + 1)
    ensures a == b
  {
    if a < b {
      CumulativeAscends(counts, a + 1, b);
    } else if b < a {
      CumulativeAscends(counts, b + 1, a);
    }
  }

  lemma Between(lower: real, upper: real, pos: real, width: real)
    requires lower <= upper && 0.0 <= pos <= width && width > 0.0
    ensures lower <= Interpolate(lower, upper, pos, width) <= upper
  {
    var frac, rise := pos / width, upper - lower;
    assert 0.0 <= frac <= 1.0;
    Product(frac, rise);
    Product(1.0 - frac, rise);
    assert (1.0 - frac) * rise == rise - frac * rise;
  }

  lemma Product(a: real, b: real)
    requires a >= 0.0 && b >= 0.0
    ensures a * b >= 0.0
  {
  }

  lemma Steeper(lower: real, upper: real, p: real, q: real, width: real)
    requires lower <= upper && p <= q && width > 0.0
    ensures Interpolate(lower, upper, p, width) <= Interpolate(lower, upper, q, width)
  {
    var rise := upper - lower;
    assert p / width <= q / width;
    Product(q / width - p / width, rise);
    assert (q / width - p / width) * rise == q / width * rise - p / width * rise;
  }

  lemma EstimateBetween(bounds: seq<real>, counts: seq<nat>, rank: real, lower: real, upper: real)
    requires |counts| == |bounds| + 1 && bounds != [] && Stop(counts, rank) < |bounds|
    requires var b := Stop(counts, rank);
      && counts[b] > 0 && lower == Lower(bounds, b) && upper == bounds[b] && lower <= upper
      && Cumulative(counts, b) as real <= rank <= Cumulative(counts, b + 1) as real
    ensures lower <= EstimateAt(bounds, counts, rank) <= upper
  {
    var b := Stop(counts, rank);
    var pos, width := rank - Cumulative(counts, b) as real, counts[b] as real;
    assert Cumulative(counts, b + 1) == Cumulative(counts, b) + counts[b];
    assert 0.0 <= pos <= width;
    Between(lower, upper, pos, width);
    assert EstimateAt(bounds, counts, rank) == Interpolate(lower, upper, pos, width);
  }

  lemma LowerIsBelow(bounds: seq<real>, b: nat)
    requires GoodBounds(bounds) && b < |bounds|
    ensures Lower(bounds, b) <= bounds[b]
  {
  }

  /** The estimate lies in the bucket it stops at. */
  lemma EstimateInBucket(bounds: seq<real>, seen: seq<real>, rank: real)
    requires GoodBounds(bounds) && seen != [] && 0.0 <= rank <= |seen| as real
    ensures var b, estimate := Stop(Tally(bounds, seen), rank), EstimateAt(bounds, Tally(bounds, seen), rank);
      && b <= |bounds| && Lower(bounds, b) <= estimate
      && estimate <= if b == |bounds| then Lower(bounds, b) else bounds[b]
  {
    var counts := Tally(bounds, seen);
    var b := Stop(counts, rank);
    StopHoldsRank(bounds, seen, rank);
    if b < |bounds| {
      LowerIsBelow(bounds, b);
      EstimateBetween(bounds, counts, rank, Lower(bounds, b), bounds[b]);
    } else {
      assert EstimateAt(bounds, counts, rank) == Lower(bounds, b);
    }
  }

  lemma EstimateAtIsNear(bounds: seq<real>, seen: seq<real>, rank: real, x: real)
    requires GoodBounds(bounds) && seen != [] && 0.0 <= rank <= |seen| as real
    requires OrderStatistic(seen, AtLeastOne(rank), x) && x >= 0.0
    ensures Near(bounds, EstimateAt(bounds, Tally(bounds, seen), rank), x)
  {
    var counts := Tally(bounds, seen);
    BucketOfRank(bounds, seen, AtLeastOne(rank), x);
    StopHoldsRank(bounds, seen, rank);
    OneCrossing(counts, AtLeastOne(rank), BucketOf(bounds, x), Stop(counts, rank));
    EstimateInBucket(bounds, seen, rank);
  }

  /** The estimate is in the same bucket as the observation of its rank, or is the lower bound of the
      overflow bucket that observation is in. */
  lemma EstimateIsNear(bounds: seq<real>, seen: seq<real>, q: real)
    requires GoodBounds(bounds)
    ensures seen != [] && 0.0 <= q <= 1.0 && (forall o | o in seen :: o >= 0.0) ==>
      forall x | OrderStatistic(seen, Rank(q, |seen|), x) ::
        Near(bounds, Estimate(bounds, Tally(bounds, seen), |seen|, q), x)
  {
    if seen != [] && 0.0 <= q <= 1.0 && (forall o | o in seen :: o >= 0.0) {
      QuantileRank(q, |seen|);
      forall x | OrderStatistic(seen, Rank(q, |seen|), x)
        ensures Near(bounds, Estimate(bounds, Tally(bounds, seen), |seen|, q), x)
      {
        EstimateAtIsNear(bounds, seen, RealRank(q, |seen|), x);
      }
    }
  }

  /** The rank a quantile stands for is the whole number from 1 on that its real rank first does not exceed. */
  lemma RankExactly(q: real, n: nat, k: int)
    ensures Rank(q, n) == k <==> k >= 1 && q * n as real <= k as real && (k == 1 || (k - 1) as real < q * n as real)
  {
    var rank := RealRank(q, n);
    assert rank == q * n as real;
    CeilExactly(rank, k);
  }

  lemma CeilExactly(rank: real, k: int)
    ensures AtLeastOne(rank) == k <==> k >= 1 && rank <= k as real && (k == 1 || (k - 1) as real < rank)
  {
  }

  /** A point `pos` of the way through a width is as far up the scale in proportion. */
  lemma ProportionOf(lower: real, upper: real, pos: real, width: real)
    requires width > 0.0
    ensures (Interpolate(lower, upper, pos, width) - lower) * width == pos * (upper - lower)
  {
    var share, rise := pos / width, upper - lower;
    assert share * width == pos;
    assert share * rise * width == share * width * rise;
  }

  lemma InterpolatesHere(bounds: seq<real>, counts: seq<nat>, rank: real)
    requires |counts| == |bounds| + 1 && bounds != [] && Stop(counts, rank) < |bounds|
    ensures var b := Stop(counts, rank);
      counts[b] > 0 && EstimateAt(bounds, counts, rank)
         == Interpolate(Lower(bounds, b), bounds[b], rank - Cumulative(counts, b) as real, counts[b] as real)
  {
    StopsAtFull(counts, rank, 0);
  }

  function Before(bounds: seq<real>, seen: seq<real>, b: nat): nat
    requires b < |bounds|
  {
    if b == 0 then 0 else CountUpTo(seen, bounds[b - 1])
  }

  lemma CountsHere(bounds: seq<real>, seen: seq<real>, b: nat)
    requires GoodBounds(bounds) && b < |bounds|
    ensures var counts := Tally(bounds, seen);
      && Cumulative(counts, b) == Before(bounds, seen, b)
      && Cumulative(counts, b + 1) == CountUpTo(seen, bounds[b])
      && counts[b] == CountUpTo(seen, bounds[b]) - Before(bounds, seen, b)
  {
    CumulativeCounts(bounds, seen, b);
    if b > 0 {
      CumulativeCounts(bounds, seen, b - 1);
    }
  }

  lemma StopIs(counts: seq<nat>, rank: real, k: int, b: nat)
    requires k == AtLeastOne(rank) && rank >= 0.0 && Stop(counts, rank) < |counts| && b < |counts|
    requires Cumulative(counts, b) < k <= Cumulative(counts, b + 1)
    ensures Stop(counts, rank) == b
  {
    assert Cumulative(counts, Stop(counts, rank)) < k <= Cumulative(counts, Stop(counts, rank) + 1) by {
      StopCrosses(counts, rank);
    }
    OneCrossing(counts, k, b, Stop(counts, rank));
  }

  lemma StopsInside(bounds: seq<real>, seen: seq<real>, rank: real)
    requires seen != [] && 0.0 <= rank <= |seen| as real
    ensures Stop(Tally(bounds, seen), rank) <= |bounds|
  {
    FallbackExactly(bounds, seen, rank);
  }

  /** The estimate is the point of bucket `b` that is as far from its lower bound to its upper as the real rank
      is from the observations before the bucket to those up to it. */
  predicate InProportion(bounds: seq<real>, seen: seq<real>, rank: real, estimate: real, b: nat)
    requires b < |bounds|
  {
    var before, here := Before(bounds, seen, b), CountUpTo(seen, bounds[b]) - Before(bounds, seen, b);
    here > 0 && estimate == Interpolate(Lower(bounds, b), bounds[b], rank - before as real, here as real)
  }

  lemma StopsHere(bounds: seq<real>, seen: seq<real>, rank: real, k: int, b: nat)
    requires GoodBounds(bounds) && seen != [] && 0.0 <= rank <= |seen| as real && b < |bounds|
    requires k == AtLeastOne(rank) && Before(bounds, seen, b) < k <= CountUpTo(seen, bounds[b])
    ensures Stop(Tally(bounds, seen), rank) == b
  {
    CountsHere(bounds, seen, b);
    StopsInside(bounds, seen, rank);
    StopIs(Tally(bounds, seen), rank, k, b);
  }

  lemma ProportionIn(bounds: seq<real>, seen: seq<real>, counts: seq<nat>, rank: real, b: nat)
    requires |counts| == |bounds| + 1 && b < |bounds| && b == Stop(counts, rank)
    requires Cumulative(counts, b) == Before(bounds, seen, b)
    requires counts[b] == CountUpTo(seen, bounds[b]) - Before(bounds, seen, b)
    ensures InProportion(bounds, seen, rank, EstimateAt(bounds, counts, rank), b)
  {
    InterpolatesHere(bounds, counts, rank);
  }

  lemma ProportionalAt(bounds: seq<real>, seen: seq<real>, rank: real, k: int, b: nat)
    requires GoodBounds(bounds) && seen != [] && 0.0 <= rank <= |seen| as real && b < |bounds|
    requires k == AtLeastOne(rank) && Before(bounds, seen, b) < k <= CountUpTo(seen, bounds[b])
    ensures InProportion(bounds, seen, rank, EstimateAt(bounds, Tally(bounds, seen), rank), b)
  {
    StopsHere(bounds, seen, rank, k, b);
    CountsHere(bounds, seen, b);
    ProportionIn(bounds, seen, Tally(bounds, seen), rank, b);
  }

  /** Within the bucket that holds its rank the estimate lies in proportion. */
  lemma EstimateIsProportional(bounds: seq<real>, seen: seq<real>, q: real, b: nat)
    requires GoodBounds(bounds) && seen != [] && 0.0 <= q <= 1.0 && b < |bounds|
    requires Before(bounds, seen, b) < Rank(q, |seen|) <= CountUpTo(seen, bounds[b])
    ensures InProportion(bounds, seen, RealRank(q, |seen|), Estimate(bounds, Tally(bounds, seen), |seen|, q), b)
  {
    QuantileRank(q, |seen|);
    ProportionalAt(bounds, seen, RealRank(q, |seen|), Rank(q, |seen|), b);
  }

  /** In the overflow bucket, which has no upper bound, it is the last bound; with nothing seen, 0. */
  lemma EstimateOverflows(bounds: seq<real>, seen: seq<real>, q: real)
    requires GoodBounds(bounds) && 0.0 <= q <= 1.0
    ensures seen == [] ==> Estimate(bounds, Tally(bounds, seen), |seen|, q) == 0.0
    ensures seen != [] && CountUpTo(seen, bounds[|bounds| - 1]) < Rank(q, |seen|) ==>
      Estimate(bounds, Tally(bounds, seen), |seen|, q) == bounds[|bounds| - 1]
  {
    if seen != [] && CountUpTo(seen, bounds[|bounds| - 1]) < Rank(q, |seen|) {
      QuantileRank(q, |seen|);
      StopsBeyond(bounds, seen, RealRank(q, |seen|));
    }
  }

  lemma StopsBeyond(bounds: seq<real>, seen: seq<real>, rank: real)
    requires GoodBounds(bounds) && seen != [] && 0.0 <= rank <= |seen| as real
    requires CountUpTo(seen, bounds[|bounds| - 1]) < AtLeastOne(rank)
    ensures Stop(Tally(bounds, seen), rank) == |bounds|
  {
    var counts, k := Tally(bounds, seen), AtLeastOne(rank);
    StopsInside(bounds, seen, rank);
    CumulativeCounts(bounds, seen, |bounds| - 1);
    CumulativeTotal(bounds, seen);
    assert k <= |seen| by {
      CeilExactly(rank, k);
    }
    StopIs(counts, rank, k, |bounds|);
  }

  lemma EstimateAtAscends(bounds: seq<real>, seen: seq<real>, p: real, q: real)
    requires GoodBounds(bounds) && seen != [] && 0.0 <= p <= q <= |seen| as real
    ensures EstimateAt(bounds, Tally(bounds, seen), p) <= EstimateAt(bounds, Tally(bounds, seen), q)
  {
    var counts := Tally(bounds, seen);
    var a, b := Stop(counts, p), Stop(counts, q);
    StopHoldsRank(bounds, seen, p);
    StopHoldsRank(bounds, seen, q);
    EstimateInBucket(bounds, seen, p);
    EstimateInBucket(bounds, seen, q);
    if b < a {
      CumulativeAscends(counts, b + 1, a);
    } else if a == b < |bounds| {
      var c := Cumulative(counts, a) as real;
      Steeper(Lower(bounds, a), bounds[a], p - c, q - c, counts[a] as real);
    }
  }

  lemma LargerRank(p: real, q: real, n: nat)
    requires p <= q
    ensures RealRank(p, n) <= RealRank(q, n)
  {
  }

  /** A larger quantile never has a smaller estimate. */
  lemma QuantileAscends(bounds: seq<real>, seen: seq<real>, p: real, q: real)
    requires GoodBounds(bounds) && 0.0 <= p <= q <= 1.0
    ensures Estimate(bounds, Tally(bounds, seen), |seen|, p) <= Estimate(bounds, Tally(bounds, seen), |seen|, q)
  {
    if seen != [] {
      QuantileRank(p, |seen|);
      QuantileRank(q, |seen|);
      LargerRank(p, q, |seen|);
      EstimateAtAscends(bounds, seen, RealRank(p, |seen|), RealRank(q, |seen|));
    }
  }

  /** Every rank has its order statistic. */
  lemma {:induction false} OrderStatisticExists(seen: seq<real>, k: int) returns (x: real)
    requires 1 <= k <= |seen|
    ensures OrderStatistic(seen, k, x)
    decreases |seen|
  {
    var top := Greatest(seen);
    forall i | 0 <= i < |seen| ensures seen[i] <= top {
      assert seen[i] in seen;
    }
    AllUpTo(seen, top);
    if CountBelow(seen, top) < k {
      x := top;
    } else {
      var rest := Below(seen, top);
      BelowIsShorter(seen, top);
      x := OrderStatisticExists(rest, k);
      BelowCounts(seen, top, x);
    }
  }

  function Below(seen: seq<real>, top: real): (rest: seq<real>)
    ensures |rest| == CountBelow(seen, top)
    ensures forall x :: x in rest <==> x in seen && x < top
  {
    if seen == [] then []
    else
      var n := |seen| - 1;
      Below(seen[..n], top) + if seen[n] < top then [seen[n]] else []
  }

  lemma {:induction false} BelowIsShorter(seen: seq<real>, top: real)
    ensures top in seen ==> CountBelow(seen, top) < |seen|
  {
    if seen != [] {
      BelowIsShorter(seen[..|seen| - 1], top);
    }
  }

  lemma {:induction false} BelowCounts(seen: seq<real>, top: real, x: real)
    requires x < top
    ensures CountBelow(Below(seen, top), x) == CountBelow(seen, x)
    ensures CountUpTo(Below(seen, top), x) == CountUpTo(seen, x)
  {
    if seen != [] {
      var n := |seen| - 1;
      BelowCounts(seen[..n], top, x);
      var rest := Below(seen[..n], top);
      assert (rest + [seen[n]])[..|rest|] == rest;
      assert rest + [] == rest;
    }
  }

  lemma {:induction false} Greatest(seen: seq<real>) returns (top: real)
    requires seen != []
    ensures top in seen && forall x | x in seen :: x <= top
  {
    var n := |seen| - 1;
    top := seen[n];
    if n > 0 {
      var before := Greatest(seen[..n]);
      assert forall x | x in seen :: x in seen[..n] || x == seen[n];
      if before > top {
        top := before;
      }
    }
  }

  lemma {:induction false} AllUpTo(seen: seq<real>, top: real)
    requires forall i | 0 <= i < |seen| :: seen[i] <= top
    ensures CountUpTo(seen, top) == |seen|
  {
    if seen != [] {
      AllUpTo(seen[..|seen| - 1], top);
    }
  }
}
