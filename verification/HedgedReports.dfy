/**
 The hedged report against the channels' own reports (Benchmark::process_hedged_data and
 process_thread, benchmark/source/benchmark.cpp): for which timestamps hedging is never worse.
 */
module HedgedReports {
  import opened Machine
  import opened Sorting
  import opened Pairing
  import opened PairingOptimality
  import opened PairingInvariance
  import opened LatencyPercentiles

  /** The latencies process_thread reports on for channel c: all of them. */
  ghost function AllLatencies(chans: Channels, num: int, c: nat): (r: seq<u64>)
    requires Filled(chans, num) && c < |chans|
    ensures |r| == if num <= 0 then 0 else num
    ensures forall i :: 0 <= i < num ==> r[i] == chans[c][i].latency
  {
    if num <= 0 then [] else seq(num, i requires 0 <= i < num => chans[c][i].latency)
  }

  ghost function Tuples(chans: Channels, num: int): seq<Tuple>
    requires Filled(chans, num) && chans != []
  {
    Run(chans, num, Zeros(|chans|)).tuples
  }

  /** The hedged report is no worse than the report of channel c. */
  ghost predicate ReportNoWorse(chans: Channels, num: int, c: nat)
    requires Filled(chans, num) && c < |chans|
  {
    NoWorse(PercentilesOf(Emitted(chans, num, Zeros(|chans|))), PercentilesOf(AllLatencies(chans, num, c)))
  }

  /** The same timestamps, with any latencies. */
  ghost predicate SameTimestamps(chans: Channels, other: Channels, num: int) {
    && Filled(chans, num) && Filled(other, num) && |other| == |chans|
    && forall c, i :: 0 <= c < |chans| && 0 <= i < num ==> other[c][i].timestamp == chans[c][i].timestamp
  }

  /** With these timestamps, no channel's report beats the hedged one, whatever the latencies are. */
  ghost predicate NeverWorse(chans: Channels, num: int)
    requires Filled(chans, num) && chans != []
  {
    forall other: Channels, c: nat :: SameTimestamps(chans, other, num) && c < |other| ==> ReportNoWorse(other, num, c)
  }

  // The tuples depend on the timestamps alone.

  lemma SameHeads(chans: Channels, other: Channels, num: int, idx: Tuple)
    requires SameTimestamps(chans, other, num) && InBounds(chans, num, idx)
    ensures InBounds(other, num, idx) && Timestamps(other, num, idx) == Timestamps(chans, num, idx)
  {
    assert forall c :: 0 <= c < |idx| ==> idx[c] < num;
  }

  lemma {:induction false} SameRun(chans: Channels, other: Channels, num: int, idx: Tuple)
    requires SameTimestamps(chans, other, num) && |idx| == |chans| > 0
    ensures Run(other, num, idx) == Run(chans, num, idx)
    decreases Remaining(num, idx)
  {
    if !Exhausted(num, idx) {
      SameHeads(chans, other, num, idx);
      if Close(Timestamps(chans, num, idx)) {
        RemainingAfterAdvanceAll(num, idx);
        SameRun(chans, other, num, AdvanceAll(idx));
      } else {
        var lag := FirstLagging(Timestamps(chans, num, idx));
        RemainingAfterAdvance(num, idx, lag);
        SameRun(chans, other, num, Advance(idx, lag));
      }
    }
  }

  // Nothing lost, or nothing paired: never worse.

  lemma TuplesAreChain(chans: Channels, num: int)
    requires Filled(chans, num) && chans != []
    ensures Chain(chans, num, Tuples(chans, num))
  {
    RunIsGreedy(chans, num, Zeros(|chans|));
    GreedyIsChain(chans, num, Zeros(|chans|), Tuples(chans, num));
  }

  lemma NothingLost(chans: Channels, num: int, c: nat)
    requires Filled(chans, num) && c < |chans| && num >= 0 && |Tuples(chans, num)| == num
    ensures ReportNoWorse(chans, num, c)
  {
    var tuples := Tuples(chans, num);
    TuplesAreChain(chans, num);
    forall i | 0 <= i < num
      ensures tuples[i][c] == i
    {
      ChainIndexBounds(chans, num, tuples, c, i);
    }
    assert ChannelLatencies(chans, num, tuples, c) == AllLatencies(chans, num, c);
    HedgingWorsensNothing(chans, num, tuples, c);
  }

  lemma NothingPaired(chans: Channels, num: int, c: nat)
    requires Filled(chans, num) && c < |chans| && Tuples(chans, num) == []
    ensures ReportNoWorse(chans, num, c)
  {
    NotNegative(AllLatencies(chans, num, c));
  }

  /** No percentile of a list of latencies is below the all-zero report of the empty list. */
  lemma NotNegative(s: seq<u64>)
    ensures NoWorse(PercentilesOf([]), PercentilesOf(s))
  {
    if s != [] {
      var t := Sort(s);
      ElementsKept(s);
      assert forall i :: 0 <= i < |t| ==> t[i] >= 0;
      SumNotNegative(t);
      DivideBoth(0, Sum(t), |t|);
    }
  }

  lemma {:induction false} SumNotNegative(s: seq<int>)
    requires forall i :: 0 <= i < |s| ==> s[i] >= 0
    ensures Sum(s) >= 0
  {
    if s != [] {
      SumNotNegative(s[1..]);
    }
  }

  lemma ChainIndexBounds(chans: Channels, num: nat, ts: seq<Tuple>, c: nat, i: nat)
    requires Chain(chans, num, ts) && c < |chans| && i < |ts|
    ensures |ts[i]| == |chans| && i <= ts[i][c] <= num - (|ts| - i)
  {
    ChainLowerBound(chans, num, ts, c, i);
    ChainUpperBound(chans, num, ts, c, i);
  }

  lemma {:induction false} ChainLowerBound(chans: Channels, num: nat, ts: seq<Tuple>, c: nat, i: nat)
    requires Chain(chans, num, ts) && c < |chans| && i < |ts|
    ensures |ts[i]| == |chans| && i <= ts[i][c]
  {
    assert Pairable(chans, num, ts[i]);
    if i > 0 {
      ChainLowerBound(chans, num, ts, c, i - 1);
      assert Below(ts[i - 1], ts[i]);
    }
  }

  lemma {:induction false} ChainUpperBound(chans: Channels, num: nat, ts: seq<Tuple>, c: nat, i: nat)
    requires Chain(chans, num, ts) && c < |chans| && i < |ts|
    ensures |ts[i]| == |chans| && ts[i][c] <= num - (|ts| - i)
    decreases |ts| - i
  {
    assert Pairable(chans, num, ts[i]);
    if i + 1 < |ts| {
      ChainUpperBound(chans, num, ts, c, i + 1);
      assert Below(ts[i], ts[i + 1]);
    }
  }

  // Something lost and something paired: then a lost sample can be the fastest of all.

  /** An index of channel 0 that no tuple uses. */
  lemma {:induction false} UnusedIndex(chans: Channels, num: nat, ts: seq<Tuple>, n: nat) returns (u: nat)
    requires Chain(chans, num, ts) && chans != [] && n <= |ts|
    ensures u <= n && forall i :: 0 <= i < n ==> |ts[i]| == |chans| && ts[i][0] != u
  {
    if n == 0 {
      u := 0;
    } else {
      u := UnusedIndex(chans, num, ts, n - 1);
      assert Pairable(chans, num, ts[n - 1]);
      if ts[n - 1][0] == u {
        u := n;
        forall i | 0 <= i < n
          ensures ts[i][0] != n
        {
          ChainLowerBound(chans, num, ts, 0, n - 1);
          assert i < n - 1 ==> Below(ts[i], ts[n - 1]);
        }
      }
    }
  }

  /** Sample u of channel 0 takes no time, every other sample one cycle. */
  ghost function Relabelled(chans: Channels, num: int, u: nat): (r: Channels)
    requires Filled(chans, num)
    ensures SameTimestamps(chans, r, num)
    ensures forall c, i :: 0 <= c < |chans| && 0 <= i < num ==> r[c][i].latency == if c == 0 && i == u then 0 else 1
  {
    if num <= 0 then chans
    else seq(|chans|, c requires 0 <= c < |chans| =>
           seq(num, i requires 0 <= i < num => Sample(chans[c][i].timestamp, if c == 0 && i == u then 0 else 1)))
  }

  lemma UsedSamplesTakeOne(chans: Channels, num: int, u: nat, t: Tuple)
    requires Filled(chans, num) && chans != [] && InBounds(Relabelled(chans, num, u), num, t) && t[0] != u
    ensures Effective(Relabelled(chans, num, u), num, t) == 1
  {
    var lats := Latencies(Relabelled(chans, num, u), num, t);
    MinimumIsLeast(lats);
    forall c | 0 <= c < |lats|
      ensures lats[c] == 1
    {
      assert t[c] < num;
    }
  }

  lemma SmallestIsReported(s: seq<int>, v: int)
    requires v in s && forall i :: 0 <= i < |s| ==> v <= s[i]
    ensures PercentilesOf(s).min == v
  {
    PairingOptimality.SortKeepsElements(s);
    var t := Sort(s);
    assert v in t && t[0] in t;
  }

  ghost predicate Unused(chans: Channels, num: int, u: nat)
    requires Filled(chans, num) && chans != []
  {
    forall i :: 0 <= i < |Tuples(chans, num)| ==> |Tuples(chans, num)[i]| == |chans| && Tuples(chans, num)[i][0] != u
  }

  lemma HedgedTakesOne(chans: Channels, num: int, u: nat)
    requires Filled(chans, num) && chans != [] && Unused(chans, num, u) && Tuples(chans, num) != []
    ensures PercentilesOf(Emitted(Relabelled(chans, num, u), num, Zeros(|chans|))).min == 1
  {
    var other := Relabelled(chans, num, u);
    SameRun(chans, other, num, Zeros(|chans|));
    var xs := Emitted(other, num, Zeros(|chans|));
    forall i | 0 <= i < |xs|
      ensures xs[i] == 1
    {
      UsedSamplesTakeOne(chans, num, u, Tuples(chans, num)[i]);
    }
    assert xs[0] == 1;
    SmallestIsReported(xs, 1);
  }

  lemma ChannelTakesNone(chans: Channels, num: int, u: nat)
    requires Filled(chans, num) && chans != [] && u < num
    ensures PercentilesOf(AllLatencies(Relabelled(chans, num, u), num, 0)).min == 0
  {
    var ys := AllLatencies(Relabelled(chans, num, u), num, 0);
    assert ys[u] == 0;
    SmallestIsReported(ys, 0);
  }

  /**
   For any timestamps at which some sample is lost and some tuple is paired, there are
   latencies for which channel 0's report shows a smaller minimum than the hedged one.
   */
  lemma LostSamplesMatter(chans: Channels, num: nat) returns (other: Channels)
    requires Filled(chans, num) && chans != [] && 0 < |Tuples(chans, num)| < num
    ensures SameTimestamps(chans, other, num) && !ReportNoWorse(other, num, 0)
  {
    TuplesAreChain(chans, num);
    var u := UnusedIndex(chans, num, Tuples(chans, num), |Tuples(chans, num)|);
    other := Relabelled(chans, num, u);
    HedgedTakesOne(chans, num, u);
    ChannelTakesNone(chans, num, u);
  }

  // The condition.

  lemma PairsAtMostNum(chans: Channels, num: int)
    requires Filled(chans, num) && chans != []
    ensures |Tuples(chans, num)| <= if num <= 0 then 0 else num
  {
    var tuples := Tuples(chans, num);
    TuplesAreChain(chans, num);
    if tuples != [] {
      assert Pairable(chans, num, tuples[0]);
      assert tuples[0][0] < num;
      ChainIndexBounds(chans, num, tuples, 0, 0);
    }
  }

  /** Nothing is lost exactly when all equal-index tuples are close. */
  lemma NothingLostWhenClose(chans: Channels, num: int)
    requires Filled(chans, num) && chans != [] && num >= 0
    ensures |Tuples(chans, num)| == num <==> EqualIndicesClose(chans, num, 0)
  {
    AgreesWithSimplePairing(chans, num);
    if |Tuples(chans, num)| == num {
      FullChainIsDiagonal(chans, num);
    }
  }

  lemma FullChainIsDiagonal(chans: Channels, num: nat)
    requires Filled(chans, num) && chans != [] && |Tuples(chans, num)| == num
    ensures Tuples(chans, num) == Diagonals(|chans|, num, 0)
  {
    var tuples := Tuples(chans, num);
    TuplesAreChain(chans, num);
    forall i | 0 <= i < num
      ensures tuples[i] == Diagonal(|chans|, i)
    {
      assert Pairable(chans, num, tuples[i]);
      forall c | 0 <= c < |chans|
        ensures tuples[i][c] == i
      {
        ChainIndexBounds(chans, num, tuples, c, i);
      }
    }
  }

  /**
   Hedging worsens no channel's own report, for any latencies, if and only if all
   equal-index tuples are close (then no sample is lost) or nothing is paired at all.
   */
  lemma HedgingWorsensNoReport(chans: Channels, num: int)
    requires Filled(chans, num) && chans != []
    ensures NeverWorse(chans, num) <==> EqualIndicesClose(chans, num, 0) || Tuples(chans, num) == []
  {
    PairsAtMostNum(chans, num);
    if num >= 0 {
      NothingLostWhenClose(chans, num);
    }
    if EqualIndicesClose(chans, num, 0) || Tuples(chans, num) == [] {
      forall other: Channels, c: nat | SameTimestamps(chans, other, num) && c < |other|
        ensures ReportNoWorse(other, num, c)
      {
        SameRun(chans, other, num, Zeros(|chans|));
        if Tuples(chans, num) == [] {
          NothingPaired(other, num, c);
        } else {
          NothingLost(other, num, c);
        }
      }
    } else {
      var other := LostSamplesMatter(chans, num);
      assert SameTimestamps(chans, other, num) && 0 < |other|;
    }
  }

  /** With monotone timestamps nothing is paired exactly when no close tuple exists. */
  lemma HedgingWorsensNoMonotoneReport(chans: Channels, num: int)
    requires Filled(chans, num) && chans != [] && Monotone(chans, num)
    ensures NeverWorse(chans, num) <==> EqualIndicesClose(chans, num, 0) || forall t :: !Pairable(chans, num, t)
  {
    HedgingWorsensNoReport(chans, num);
    TuplesAreChain(chans, num);
    if Tuples(chans, num) != [] {
      assert Pairable(chans, num, Tuples(chans, num)[0]);
    }
    if t :| Pairable(chans, num, t) {
      PairingIsOptimal(chans, num, [t]);
    }
  }
}
