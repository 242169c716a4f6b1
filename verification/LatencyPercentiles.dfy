/**
 Percentiles of a latency list (Stats::compute_percentiles, benchmark/source/stats.cpp)
 and what hedging does to them (Benchmark::process_hedged_data).
 */
module LatencyPercentiles {
  import opened Machine
  import opened Wrappers
  import opened Sorting
  import opened Pairing
  import PairingOptimality

  datatype Percentiles = Percentiles(min: int, p50: int, p90: int, p95: int, p99: int, p999: int, p9999: int,
                                     max: int, mean: real)

  /** The index of the percentile num/den among n sorted values. */
  function Rank(n: nat, num: nat, den: nat): (r: nat)
    requires n > 0 && num < den
    ensures r < n
  {
    RankInBounds(n, num, den);
    n * num / den
  }

  lemma RankInBounds(n: nat, num: nat, den: nat)
    requires n > 0 && num < den
    ensures 0 <= n * num / den < n
  {
    ProductGrows(n, num, den);
    QuotientBelow(n * num, n, den);
  }

  lemma ProductGrows(n: nat, num: nat, den: nat)
    requires n > 0 && num < den
    ensures 0 <= n * num < n * den
  {
  }

  lemma QuotientBelow(a: nat, n: nat, den: nat)
    requires a < n * den
    ensures den > 0 && 0 <= a / den < n
  {
    assert den > 0;
    var q := a / den;
    assert q * den <= a;
    MultipleOrder(q, n, den);
  }

  lemma MultipleOrder(q: int, n: int, den: nat)
    ensures q >= n ==> q * den >= n * den
  {
  }

  /** The selection from an ascending list. */
  ghost function FromSorted(s: seq<int>): Percentiles
    requires s != []
  {
    var n := |s|;
    Percentiles(s[0], s[Rank(n, 50, 100)], s[Rank(n, 90, 100)], s[Rank(n, 95, 100)], s[Rank(n, 99, 100)],
                s[Rank(n, 999, 1000)], s[Rank(n, 9999, 10000)], s[n - 1], Sum(s) as real / n as real)
  }

  /** The percentiles of an unsorted list; all zero for the empty list. */
  ghost function PercentilesOf(data: seq<int>): Percentiles {
    if data == [] then Percentiles(0, 0, 0, 0, 0, 0, 0, 0, 0.0) else FromSorted(Sort(data))
  }

  /** The part of compute_percentiles after the sort. */
  method SelectPercentiles(data: array<int>) returns (out: Percentiles)
    requires data.Length > 0
    ensures out == FromSorted(data[..])
  {
    var n := data.Length;
    RankInBounds(n, 50, 100);
    RankInBounds(n, 90, 100);
    RankInBounds(n, 95, 100);
    RankInBounds(n, 99, 100);
    RankInBounds(n, 999, 1000);
    RankInBounds(n, 9999, 10000);
    var i999 := if n - 1 < n * 999 / 1000 then n - 1 else n * 999 / 1000;
    var i9999 := if n - 1 < n * 9999 / 10000 then n - 1 else n * 9999 / 10000;
    var sum: real := 0.0;
    for i := 0 to n
      invariant sum == Sum(data[..i]) as real
    {
      assert data[..i + 1] == data[..i] + [data[i]];
      SumAppend(data[..i], data[i]);
      sum := sum + data[i] as real;
    }
    assert data[..n] == data[..];
    out := Percentiles(data[0], data[n * 50 / 100], data[n * 90 / 100], data[n * 95 / 100], data[n * 99 / 100],
                       data[i999], data[i9999], data[n - 1], sum / n as real);
  }

  method ComputePercentiles(data: array<int>) returns (out: Percentiles)
    modifies data
    ensures data[..] == Sort(old(data[..]))
    ensures out == PercentilesOf(old(data[..]))
    ensures old(data[..]) == [] ==> out == Percentiles(0, 0, 0, 0, 0, 0, 0, 0, 0.0)
    ensures old(data[..]) != [] ==> Reports(old(data[..]), out)
  {
    if data.Length == 0 {
      return Percentiles(0, 0, 0, 0, 0, 0, 0, 0, 0.0);
    }
    PercentilesAreRanks(data[..]);
    SortInPlace(data);
    out := SelectPercentiles(data);
  }

  // What a percentile is, without sorting.

  /** v is the value of rank r: more than r values are at most v, and at most r are less. */
  ghost predicate HasRank(data: seq<int>, r: nat, v: int) {
    v in data && CountAtMost(data, v) > r >= CountAtMost(data, v - 1)
  }

  lemma RankInSorted(s: seq<int>, r: nat, data: seq<int>)
    requires IsSorted(s) && r < |s| && SameCounts(s, data) && s[r] in data
    ensures HasRank(data, r, s[r])
  {
    RankOfSorted(s, r, s[r]);
    RankOfSorted(s, r, s[r] - 1);
  }

  /** s lists the value of every rank. */
  ghost predicate AllRanked(s: seq<int>, data: seq<int>) {
    |s| == |data| && forall r :: 0 <= r < |s| ==> HasRank(data, r, s[r])
  }

  lemma SortedListsRanks(data: seq<int>)
    ensures AllRanked(Sort(data), data)
  {
    SameCountsWhenSorted(data);
    ElementsKept(data);
    SortedRanks(Sort(data), data);
  }

  lemma ElementsKept(data: seq<int>)
    ensures forall r :: 0 <= r < |data| ==> Sort(data)[r] in data
  {
    PairingOptimality.SortKeepsElements(data);
    forall r | 0 <= r < |data|
      ensures Sort(data)[r] in data
    {
      assert Sort(data)[r] in Sort(data);
    }
  }

  lemma SortedRanks(s: seq<int>, data: seq<int>)
    requires IsSorted(s) && SameCounts(s, data) && forall r :: 0 <= r < |s| ==> s[r] in data
    ensures AllRanked(s, data)
  {
    forall r | 0 <= r < |s|
      ensures HasRank(data, r, s[r])
    {
      RankInSorted(s, r, data);
    }
  }

  /** v is the num/den percentile: the value of the largest rank r with r / n <= num / den. */
  ghost predicate IsPercentile(data: seq<int>, num: nat, den: nat, v: int) {
    exists r: nat :: HasRank(data, r, v) && r * den <= num * |data| < (r + 1) * den
  }

  lemma RankIs(n: nat, num: nat, den: nat)
    requires n > 0 && num < den
    ensures Rank(n, num, den) * den <= num * n < (Rank(n, num, den) + 1) * den
  {
    var r := Rank(n, num, den);
    assert n * num == n * num / den * den + n * num % den;
    assert (r + 1) * den == r * den + den;
  }

  lemma SelectedPercentile(s: seq<int>, data: seq<int>, num: nat, den: nat)
    requires data != [] && AllRanked(s, data) && num < den
    ensures IsPercentile(data, num, den, s[Rank(|s|, num, den)])
  {
    RankIs(|s|, num, den);
    assert HasRank(data, Rank(|s|, num, den), s[Rank(|s|, num, den)]);
  }

  ghost predicate RanksReported(data: seq<int>, p: Percentiles) {
    && data != [] && HasRank(data, 0, p.min) && HasRank(data, |data| - 1, p.max)
    && IsPercentile(data, 50, 100, p.p50) && IsPercentile(data, 90, 100, p.p90) && IsPercentile(data, 95, 100, p.p95)
    && IsPercentile(data, 99, 100, p.p99) && IsPercentile(data, 999, 1000, p.p999)
    && IsPercentile(data, 9999, 10000, p.p9999)
  }

  ghost predicate MeanReported(data: seq<int>, p: Percentiles) {
    IsMean(p.mean, |data|, Sum(data), p.min, p.max)
  }

  /** The mean times the size is the sum, and it lies between the least and the greatest value. */
  ghost predicate IsMean(mean: real, n: nat, sum: int, low: int, high: int) {
    mean * n as real == sum as real && low as real <= mean <= high as real
  }

  ghost predicate SumWithin(low: int, sum: int, high: int, n: nat) {
    low * n <= sum <= high * n
  }

  /** The report says of an unsorted list what its fields claim. */
  ghost predicate Reports(data: seq<int>, p: Percentiles) {
    RanksReported(data, p) && MeanReported(data, p)
  }

  lemma SelectedRanks(s: seq<int>, data: seq<int>)
    requires data != [] && AllRanked(s, data)
    ensures RanksReported(data, FromSorted(s))
  {
    SelectedPercentile(s, data, 50, 100);
    SelectedPercentile(s, data, 90, 100);
    SelectedPercentile(s, data, 95, 100);
    SelectedPercentile(s, data, 99, 100);
    SelectedPercentile(s, data, 999, 1000);
    SelectedPercentile(s, data, 9999, 10000);
    assert HasRank(data, 0, s[0]) && HasRank(data, |data| - 1, s[|s| - 1]);
  }

  lemma RealGrows(x: real, y: real, n: real)
    requires n > 0.0 && x > y
    ensures x * n > y * n
  {
  }

  lemma RealProduct(x: real, y: real, n: real)
    requires n > 0.0 && x * n <= y * n
    ensures x <= y
  {
    if x > y {
      RealGrows(x, y, n);
    }
  }

  lemma QuotientBetween(low: int, sum: int, high: int, n: nat)
    requires n > 0 && SumWithin(low, sum, high, n)
    ensures IsMean(sum as real / n as real, n, sum, low, high)
  {
    var mean := sum as real / n as real;
    assert low as real * n as real == (low * n) as real;
    assert high as real * n as real == (high * n) as real;
    RealProduct(low as real, mean, n as real);
    RealProduct(mean, high as real, n as real);
  }

  lemma MeanOfSorted(s: seq<int>, data: seq<int>, p: Percentiles)
    requires s != [] && IsSorted(s) && |s| == |data| && Sum(s) == Sum(data)
    requires p.min == s[0] && p.max == s[|s| - 1] && p.mean == Sum(s) as real / |s| as real
    ensures MeanReported(data, p)
  {
    SumBetween(s, s[0], s[|s| - 1]);
    QuotientBetween(s[0], Sum(s), s[|s| - 1], |s|);
  }

  lemma {:induction false} SumBetween(s: seq<int>, low: int, high: int)
    requires forall i :: 0 <= i < |s| ==> low <= s[i] <= high
    ensures SumWithin(low, Sum(s), high, |s|)
  {
    if s != [] {
      SumBetween(s[1..], low, high);
      assert low * |s| == low * (|s| - 1) + low && high * |s| == high * (|s| - 1) + high;
    }
  }

  /** Every field of the report is what its name says, on the unsorted list. */
  lemma PercentilesAreRanks(data: seq<int>)
    requires data != []
    ensures Reports(data, PercentilesOf(data))
  {
    SortedListsRanks(data);
    SelectedRanks(Sort(data), data);
    SumOfSorted(data);
    MeanOfSorted(Sort(data), data, FromSorted(Sort(data)));
  }

  /** A rank has one value, so the ranks determine the percentiles. */
  lemma RankIsUnique(data: seq<int>, r: nat, v: int, w: int)
    requires HasRank(data, r, v) && HasRank(data, r, w)
    ensures v == w
  {
    if v < w {
      CountIsMonotone(data, v, w - 1);
    } else if w < v {
      CountIsMonotone(data, w, v - 1);
    }
  }

  lemma {:induction false} CountIsMonotone(s: seq<int>, v: int, w: int)
    requires v <= w
    ensures CountAtMost(s, v) <= CountAtMost(s, w)
  {
    if s != [] {
      CountIsMonotone(s[1..], v, w);
    }
  }

  // Hedging.

  /** p is at most q in every order statistic and in the mean. */
  ghost predicate NoWorse(p: Percentiles, q: Percentiles) {
    && p.min <= q.min && p.p50 <= q.p50 && p.p90 <= q.p90 && p.p95 <= q.p95 && p.p99 <= q.p99
    && p.p999 <= q.p999 && p.p9999 <= q.p9999 && p.max <= q.max && p.mean <= q.mean
  }

  lemma NoWorseWhenSorted(s: seq<int>, t: seq<int>)
    requires s != [] && Within(s, t, 0) && Sum(s) <= Sum(t)
    ensures NoWorse(FromSorted(s), FromSorted(t))
  {
    DivideBoth(Sum(s), Sum(t), |s|);
  }

  lemma DominatedPercentiles(xs: seq<int>, ys: seq<int>)
    requires Within(xs, ys, 0)
    ensures NoWorse(PercentilesOf(xs), PercentilesOf(ys))
  {
    if xs != [] {
      SortedDominance(xs, ys, 0);
      SumOfDominated(xs, ys);
      SumOfSorted(xs);
      SumOfSorted(ys);
      NoWorseWhenSorted(Sort(xs), Sort(ys));
    }
  }

  lemma DivideBoth(a: int, b: int, n: nat)
    requires a <= b && n > 0
    ensures a as real / n as real <= b as real / n as real
  {
  }

  /** The latencies channel c alone saw in the paired reads. */
  ghost function ChannelLatencies(chans: Channels, num: int, tuples: seq<Tuple>, c: nat): seq<u64>
    requires AllInBounds(chans, num, tuples) && c < |chans|
  {
    seq(|tuples|, i requires 0 <= i < |tuples| => Latencies(chans, num, tuples[i])[c])
  }

  /**
   Hedging worsens no percentile: over any tuples, the effective latencies are no worse
   than those of any single channel in the same reads.
   */
  lemma HedgingWorsensNothing(chans: Channels, num: int, tuples: seq<Tuple>, c: nat)
    requires AllInBounds(chans, num, tuples) && c < |chans|
    ensures NoWorse(PercentilesOf(Effectives(chans, num, tuples)), PercentilesOf(ChannelLatencies(chans, num, tuples, c)))
  {
    var xs, ys := Effectives(chans, num, tuples), ChannelLatencies(chans, num, tuples, c);
    forall i | 0 <= i < |xs|
      ensures xs[i] <= ys[i]
    {
      MinimumIsLeast(Latencies(chans, num, tuples[i]));
    }
    DominatedPercentiles(xs, ys);
  }

  /**
   process_hedged_data, without the printing: nothing for a single channel, otherwise the
   number of pairs and the percentiles of their effective latencies.
   */
  method ProcessHedgedData(chans: Channels, num: int) returns (r: Option<(nat, Percentiles)>)
    requires Filled(chans, num)
    ensures r.Some? <==> |chans| > 1
    ensures r.Some? ==> r.value.0 == |Run(chans, num, Zeros(|chans|)).tuples|
    ensures r.Some? ==> r.value.1 == PercentilesOf(Emitted(chans, num, Zeros(|chans|)))
    ensures r.Some? ==> AppendsFastest(chans, num, [], Emitted(chans, num, Zeros(|chans|)), Run(chans, num, Zeros(|chans|)).tuples)
    ensures r.Some? && r.value.0 > 0 ==> Reports(Emitted(chans, num, Zeros(|chans|)), r.value.1)
    ensures r.Some? ==> forall c :: 0 <= c < |chans| ==>
      NoWorse(r.value.1, PercentilesOf(ChannelLatencies(chans, num, Run(chans, num, Zeros(|chans|)).tuples, c)))
  {
    if |chans| <= 1 {
      return None;
    }
    var numPaired, effective := PairSamples(chans, num, []);
    var data := new int[|effective|](i requires 0 <= i < |effective| => effective[i]);
    assert data[..] == effective;
    assert effective == Emitted(chans, num, Zeros(|chans|));
    var pe := ComputePercentiles(data);
    forall c | 0 <= c < |chans|
      ensures NoWorse(pe, PercentilesOf(ChannelLatencies(chans, num, Run(chans, num, Zeros(|chans|)).tuples, c)))
    {
      HedgingWorsensNothing(chans, num, Run(chans, num, Zeros(|chans|)).tuples, c);
    }
    return Some((numPaired, pe));
  }
}
