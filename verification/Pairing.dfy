/**
 Pairing of per-channel samples into hedged reads (Benchmark::pair_samples_n and
 pair_samples_n2, benchmark/source/benchmark.cpp).
 */
module Pairing {
  import opened Machine

  const MAX_PAIR_GAP: u64 := 400

  datatype Sample = Sample(timestamp: u64, latency: u64)

  /** One sample buffer per memory channel. */
  type Channels = seq<seq<Sample>>

  /** One sample index per channel. */
  type Tuple = seq<nat>

  /** Every buffer holds at least num samples. */
  ghost predicate Filled(chans: Channels, num: int) {
    forall c :: 0 <= c < |chans| ==> |chans[c]| >= num
  }

  predicate Exhausted(num: int, idx: Tuple) {
    exists c :: 0 <= c < |idx| && idx[c] >= num
  }

  /** idx picks an existing sample in every channel. */
  ghost predicate InBounds(chans: Channels, num: int, idx: Tuple) {
    Filled(chans, num) && |idx| == |chans| && !Exhausted(num, idx)
  }

  function Timestamps(chans: Channels, num: int, idx: Tuple): (r: seq<u64>)
    requires InBounds(chans, num, idx)
  {
    seq(|idx|, c requires 0 <= c < |idx| => chans[c][idx[c]].timestamp)
  }

  function Latencies(chans: Channels, num: int, idx: Tuple): (r: seq<u64>)
    requires InBounds(chans, num, idx)
  {
    seq(|idx|, c requires 0 <= c < |idx| => chans[c][idx[c]].latency)
  }

  ghost predicate Close(ts: seq<u64>) {
    forall a, b :: 0 <= a < |ts| && 0 <= b < |ts| ==> ts[a] - ts[b] < MAX_PAIR_GAP
  }

  /** Channel c is lagging: no head is earlier than its own. */
  ghost predicate Lagging(ts: seq<u64>, c: nat) {
    c < |ts| && forall b :: 0 <= b < |ts| ==> ts[c] <= ts[b]
  }

  /** The first of the lagging channels. */
  function FirstLagging(ts: seq<u64>): (c: nat)
    requires ts != []
    ensures Lagging(ts, c) && forall b :: 0 <= b < c ==> ts[b] > ts[c]
  {
    if |ts| == 1 then 0
    else
      var m := FirstLagging(ts[..|ts| - 1]);
      if ts[|ts| - 1] < ts[m] then |ts| - 1 else m
  }

  function Minimum(s: seq<u64>): u64 {
    if s == [] then U64_MAX
    else
      var m := Minimum(s[..|s| - 1]);
      if s[|s| - 1] < m then s[|s| - 1] else m
  }

  /** The fold with UINT64_MAX is the minimum of a nonempty list. */
  lemma {:induction false} MinimumIsLeast(s: seq<u64>)
    ensures forall i :: 0 <= i < |s| ==> Minimum(s) <= s[i]
    ensures s != [] ==> Minimum(s) in s
  {
    if s != [] {
      MinimumIsLeast(s[..|s| - 1]);
      if |s| > 1 {
        assert Minimum(s[..|s| - 1]) in s;
      }
    }
  }

  /** What a hedged read of this tuple would have cost: the fastest replica's latency. */
  function Effective(chans: Channels, num: int, idx: Tuple): u64
    requires InBounds(chans, num, idx)
  {
    Minimum(Latencies(chans, num, idx))
  }

  /** v is the latency of the fastest sample of the tuple t. */
  ghost predicate IsFastest(chans: Channels, num: int, t: Tuple, v: u64) {
    && InBounds(chans, num, t)
    && (exists c :: 0 <= c < |chans| && chans[c][t[c]].latency == v)
    && (forall d :: 0 <= d < |chans| ==> v <= chans[d][t[d]].latency)
  }

  lemma EffectiveIsFastest(chans: Channels, num: int, t: Tuple)
    requires InBounds(chans, num, t) && chans != []
    ensures IsFastest(chans, num, t, Effective(chans, num, t))
  {
    var lats := Latencies(chans, num, t);
    MinimumIsLeast(lats);
    var c :| 0 <= c < |lats| && lats[c] == Minimum(lats);
    assert chans[c][t[c]].latency == Minimum(lats);
    forall d | 0 <= d < |chans|
      ensures Minimum(lats) <= chans[d][t[d]].latency
    {
      assert lats[d] == chans[d][t[d]].latency;
    }
  }

  /** Each appended value is the latency of the fastest sample of its tuple. */
  ghost predicate AppendsFastest(chans: Channels, num: int, before: seq<u64>, after: seq<u64>, tuples: seq<Tuple>) {
    && |after| == |before| + |tuples| && after[..|before|] == before
    && forall i :: 0 <= i < |tuples| ==> IsFastest(chans, num, tuples[i], after[|before| + i])
  }

  lemma EffectivesAreFastest(chans: Channels, num: int, before: seq<u64>, tuples: seq<Tuple>)
    requires AllInBounds(chans, num, tuples) && chans != []
    ensures AppendsFastest(chans, num, before, before + Effectives(chans, num, tuples), tuples)
  {
    var after := before + Effectives(chans, num, tuples);
    forall i | 0 <= i < |tuples|
      ensures IsFastest(chans, num, tuples[i], after[|before| + i])
    {
      EffectiveIsFastest(chans, num, tuples[i]);
    }
  }

  ghost predicate AllInBounds(chans: Channels, num: int, tuples: seq<Tuple>) {
    forall i :: 0 <= i < |tuples| ==> InBounds(chans, num, tuples[i])
  }

  function Effectives(chans: Channels, num: int, tuples: seq<Tuple>): seq<u64>
    requires AllInBounds(chans, num, tuples)
  {
    seq(|tuples|, i requires 0 <= i < |tuples| => Effective(chans, num, tuples[i]))
  }

  // The greedy merge as a function.

  function Zeros(n: nat): Tuple {
    seq(n, _ => 0)
  }

  function AdvanceAll(idx: Tuple): Tuple {
    seq(|idx|, c requires 0 <= c < |idx| => idx[c] + 1)
  }

  function Advance(idx: Tuple, c: nat): Tuple
    requires c < |idx|
  {
    idx[c := idx[c] + 1]
  }

  /** How many samples lie at or after the heads. */
  function Remaining(num: int, idx: Tuple): nat {
    if idx == [] then 0
    else (if num > idx[0] then num - idx[0] else 0) + Remaining(num, idx[1..])
  }

  lemma {:induction false} RemainingAfterAdvance(num: int, idx: Tuple, c: nat)
    requires c < |idx| && idx[c] < num
    ensures Remaining(num, Advance(idx, c)) == Remaining(num, idx) - 1
  {
    if c == 0 {
      assert Advance(idx, 0)[1..] == idx[1..];
    } else {
      RemainingAfterAdvance(num, idx[1..], c - 1);
      assert Advance(idx, c)[1..] == Advance(idx[1..], c - 1);
    }
  }

  lemma {:induction false} RemainingAfterAdvanceAll(num: int, idx: Tuple)
    requires !Exhausted(num, idx)
    ensures Remaining(num, AdvanceAll(idx)) == Remaining(num, idx) - |idx|
  {
    if idx != [] {
      assert idx[0] < num;
      assert forall c :: 0 <= c < |idx[1..]| ==> idx[1..][c] == idx[c + 1];
      RemainingAfterAdvanceAll(num, idx[1..]);
      assert AdvanceAll(idx)[1..] == AdvanceAll(idx[1..]);
    }
  }

  /** What a run of the merge leaves behind: the paired tuples, and the heads at the end. */
  datatype Outcome = Outcome(tuples: seq<Tuple>, discarded: seq<nat>, heads: Tuple)

  /** The merge from the given heads on. */
  ghost function Run(chans: Channels, num: int, idx: Tuple): (o: Outcome)
    requires Filled(chans, num) && |idx| == |chans| > 0
    ensures AllInBounds(chans, num, o.tuples) && |o.discarded| == |o.heads| == |idx|
    decreases Remaining(num, idx)
  {
    if Exhausted(num, idx) then
      Outcome([], Zeros(|idx|), idx)
    else if Close(Timestamps(chans, num, idx)) then
      RemainingAfterAdvanceAll(num, idx);
      var rest := Run(chans, num, AdvanceAll(idx));
      rest.(tuples := [idx] + rest.tuples)
    else
      var lag := FirstLagging(Timestamps(chans, num, idx));
      RemainingAfterAdvance(num, idx, lag);
      var rest := Run(chans, num, Advance(idx, lag));
      rest.(discarded := Advance(rest.discarded, lag))
  }

  // The method.

  /** What the scan knows after the channels with timestamps ts. */
  ghost predicate Scanned(ts: seq<u64>, minTs: u64, maxTs: u64, minIdxChannel: int) {
    && (forall b :: 0 <= b < |ts| ==> minTs <= ts[b] <= maxTs)
    && (if ts == [] then maxTs == 0 else maxTs in ts)
    && (if minIdxChannel == -1 then minTs == U64_MAX
        else 0 <= minIdxChannel < |ts| && ts[minIdxChannel] == minTs
             && forall b :: 0 <= b < minIdxChannel ==> ts[b] > minTs)
  }

  lemma ScanOne(ts: seq<u64>, minTs: u64, maxTs: u64, minIdxChannel: int, t: u64)
    requires Scanned(ts, minTs, maxTs, minIdxChannel)
    ensures Scanned(ts + [t], if t < minTs then t else minTs, if t > maxTs then t else maxTs,
                    if t < minTs then |ts| else minIdxChannel)
  {
    assert (ts + [t])[|ts|] == t;
    if ts != [] {
      var k :| 0 <= k < |ts| && ts[k] == maxTs;
      assert (ts + [t])[k] == maxTs;
    }
  }

  lemma ScanAll(ts: seq<u64>, minTs: u64, maxTs: u64, minIdxChannel: int)
    requires Scanned(ts, minTs, maxTs, minIdxChannel) && ts != []
    ensures 0 <= maxTs - minTs
    ensures maxTs - minTs < MAX_PAIR_GAP <==> Close(ts)
    ensures maxTs - minTs >= MAX_PAIR_GAP ==> minIdxChannel == FirstLagging(ts)
  {
    var k :| 0 <= k < |ts| && ts[k] == maxTs;
    if maxTs - minTs >= MAX_PAIR_GAP {
      assert ts[k] - ts[minIdxChannel] >= MAX_PAIR_GAP;
    }
  }

  /** tss and lats are what the scan has read from the first channels. */
  ghost predicate AreHeads(chans: Channels, num: int, indices: Tuple, tss: seq<u64>, lats: seq<u64>) {
    && |tss| == |lats| <= |chans| == |indices| && Filled(chans, num)
    && forall b :: 0 <= b < |tss| ==> indices[b] < num && Sample(tss[b], lats[b]) == chans[b][indices[b]]
  }

  lemma HeadSeen(chans: Channels, num: int, indices: Tuple, tss: seq<u64>, lats: seq<u64>)
    requires AreHeads(chans, num, indices, tss, lats) && |tss| < |chans| && indices[|tss|] < num
    ensures var s := chans[|tss|][indices[|tss|]];
      AreHeads(chans, num, indices, tss + [s.timestamp], lats + [s.latency])
  {
  }

  lemma HeadsSeen(chans: Channels, num: int, indices: Tuple, tss: seq<u64>, lats: seq<u64>)
    requires AreHeads(chans, num, indices, tss, lats) && |tss| == |chans|
    ensures InBounds(chans, num, indices)
    ensures tss == Timestamps(chans, num, indices) && lats == Latencies(chans, num, indices)
  {
  }

  /** The scan over the heads at the top of the loop of pair_samples_n. */
  method ScanHeads(chans: Channels, num: int, indices: Tuple)
      returns (outOfBounds: bool, minTs: u64, maxTs: u64, minIdxChannel: int, minLatency: u64)
    requires Filled(chans, num) && |indices| == |chans| > 0
    ensures outOfBounds <==> Exhausted(num, indices)
    ensures !outOfBounds ==> 0 <= maxTs - minTs
    ensures !outOfBounds ==> (maxTs - minTs < MAX_PAIR_GAP <==> Close(Timestamps(chans, num, indices)))
    ensures !outOfBounds && maxTs - minTs >= MAX_PAIR_GAP ==> minIdxChannel == FirstLagging(Timestamps(chans, num, indices))
    ensures !outOfBounds ==> minLatency == Effective(chans, num, indices) && IsFastest(chans, num, indices, minLatency)
  {
    minTs, maxTs, minIdxChannel, minLatency, outOfBounds := U64_MAX, 0, -1, U64_MAX, false;
    ghost var tss: seq<u64>, lats: seq<u64> := [], [];
    for c := 0 to |chans|
      invariant !outOfBounds
      invariant |tss| == |lats| == c
      invariant AreHeads(chans, num, indices, tss, lats)
      invariant Scanned(tss, minTs, maxTs, minIdxChannel)
      invariant minLatency == Minimum(lats)
    {
      if indices[c] >= num {
        outOfBounds := true;
        return;
      }
      var ts := chans[c][indices[c]].timestamp;
      var lat := chans[c][indices[c]].latency;
      ScanOne(tss, minTs, maxTs, minIdxChannel, ts);
      HeadSeen(chans, num, indices, tss, lats);
      assert (lats + [lat])[..c] == lats;
      tss, lats := tss + [ts], lats + [lat];
      if ts < minTs {
        minTs := ts;
        minIdxChannel := c;
      }
      if ts > maxTs {
        maxTs := ts;
      }
      if lat < minLatency {
        minLatency := lat;
      }
    }
    HeadsSeen(chans, num, indices, tss, lats);
    EffectiveIsFastest(chans, num, indices);
    ScanAll(tss, minTs, maxTs, minIdxChannel);
  }

  /** The latencies the merge emits from the given heads on. */
  ghost function Emitted(chans: Channels, num: int, idx: Tuple): seq<u64>
    requires Filled(chans, num) && |idx| == |chans| > 0
  {
    Effectives(chans, num, Run(chans, num, idx).tuples)
  }

  lemma EmittedUnfolds(chans: Channels, num: int, idx: Tuple)
    requires Filled(chans, num) && |idx| == |chans| > 0
    ensures Exhausted(num, idx) ==> Emitted(chans, num, idx) == []
    ensures !Exhausted(num, idx) && Close(Timestamps(chans, num, idx)) ==>
      Emitted(chans, num, idx) == [Effective(chans, num, idx)] + Emitted(chans, num, AdvanceAll(idx))
    ensures !Exhausted(num, idx) && !Close(Timestamps(chans, num, idx)) ==>
      Emitted(chans, num, idx) == Emitted(chans, num, Advance(idx, FirstLagging(Timestamps(chans, num, idx))))
  {
  }

  /**
   pair_samples_n: appends the effective latencies to out_effective and returns the new
   size of that vector (0, whatever it holds, when there is no channel).
   */
  method PairSamples(chans: Channels, num: int, outEffective: seq<u64>)
      returns (count: nat, effective: seq<u64>)
    requires Filled(chans, num)
    ensures chans == [] ==> count == 0 && effective == outEffective
    ensures chans != [] ==> effective == outEffective + Emitted(chans, num, Zeros(|chans|)) && count == |effective|
    ensures chans != [] ==> AppendsFastest(chans, num, outEffective, effective, Run(chans, num, Zeros(|chans|)).tuples)
  {
    effective := outEffective;
    if |chans| == 0 {
      return 0, effective;
    }
    var indices := Zeros(|chans|);
    while true
      invariant |indices| == |chans|
      invariant effective + Emitted(chans, num, indices) == outEffective + Emitted(chans, num, Zeros(|chans|))
      decreases Remaining(num, indices)
    {
      var outOfBounds, minTs, maxTs, minIdxChannel, minLatency := ScanHeads(chans, num, indices);
      EmittedUnfolds(chans, num, indices);
      if outOfBounds {
        break;
      }
      if maxTs - minTs < MAX_PAIR_GAP {
        RemainingAfterAdvanceAll(num, indices);
        effective := effective + [minLatency];
        indices := AdvanceAll(indices);
      } else {
        RemainingAfterAdvance(num, indices, minIdxChannel);
        indices := Advance(indices, minIdxChannel);
      }
    }
    EffectivesAreFastest(chans, num, outEffective, Run(chans, num, Zeros(|chans|)).tuples);
    return |effective|, effective;
  }

  function Diagonal(n: nat, i: nat): Tuple {
    seq(n, _ => i)
  }

  /** The tuples of equal indices from i on. */
  function Diagonals(n: nat, num: int, i: nat): seq<Tuple> {
    if i < num then seq(num - i, k requires 0 <= k < num - i => Diagonal(n, i + k)) else []
  }

  lemma DiagonalsInBounds(chans: Channels, num: int, i: nat)
    requires Filled(chans, num)
    ensures AllInBounds(chans, num, Diagonals(|chans|, num, i))
  {
    forall k | 0 <= k < |Diagonals(|chans|, num, i)|
      ensures InBounds(chans, num, Diagonals(|chans|, num, i)[k])
    {
      assert Diagonals(|chans|, num, i)[k] == Diagonal(|chans|, i + k);
    }
  }

  function DiagonalEffectives(chans: Channels, num: int): seq<u64>
    requires Filled(chans, num)
  {
    DiagonalsInBounds(chans, num, 0);
    Effectives(chans, num, Diagonals(|chans|, num, 0))
  }

  /** v is the least latency of the samples with index i. */
  ghost predicate IsFastestAt(chans: Channels, i: nat, v: u64) {
    && (forall c :: 0 <= c < |chans| ==> i < |chans[c]|)
    && (exists c :: 0 <= c < |chans| && chans[c][i].latency == v)
    && (forall d :: 0 <= d < |chans| ==> v <= chans[d][i].latency)
  }

  /** The value appended for index i is the least latency of the samples with that index. */
  ghost predicate AppendsFastestAt(chans: Channels, num: int, before: seq<u64>, after: seq<u64>) {
    && |after| == |before| + (if num < 0 then 0 else num) && after[..|before|] == before
    && forall i :: 0 <= i < num ==> IsFastestAt(chans, i, after[|before|..][i])
  }

  lemma DiagonalsAreFastest(chans: Channels, num: int, before: seq<u64>)
    requires Filled(chans, num) && chans != []
    ensures AppendsFastestAt(chans, num, before, before + DiagonalEffectives(chans, num))
  {
    var added, tuples := DiagonalEffectives(chans, num), Diagonals(|chans|, num, 0);
    assert (before + added)[|before|..] == added;
    forall i | 0 <= i < num
      ensures IsFastestAt(chans, i, added[i])
    {
      DiagonalIsFastest(chans, num, i);
      assert tuples[i] == Diagonal(|chans|, i);
    }
  }

  lemma DiagonalIsFastest(chans: Channels, num: int, i: nat)
    requires Filled(chans, num) && chans != [] && i < num
    ensures InBounds(chans, num, Diagonal(|chans|, i))
    ensures IsFastestAt(chans, i, Effective(chans, num, Diagonal(|chans|, i)))
  {
    var t := Diagonal(|chans|, i);
    EffectiveIsFastest(chans, num, t);
    var c :| 0 <= c < |chans| && chans[c][t[c]].latency == Effective(chans, num, t);
    assert t[c] == i;
    forall d | 0 <= d < |chans|
      ensures Effective(chans, num, t) <= chans[d][i].latency
    {
      assert t[d] == i;
    }
  }

  /** pair_samples_n2: equal indices are paired, whatever their timestamps. */
  method PairSamplesSimple(chans: Channels, num: int, outEffective: seq<u64>)
      returns (count: nat, effective: seq<u64>)
    requires Filled(chans, num)
    ensures chans == [] ==> count == 0 && effective == outEffective
    ensures chans != [] ==> effective == outEffective + DiagonalEffectives(chans, num) && count == |effective|
    ensures chans != [] ==> AppendsFastestAt(chans, num, outEffective, effective)
  {
    effective := outEffective;
    if |chans| == 0 {
      return 0, effective;
    }
    DiagonalsInBounds(chans, num, 0);
    ghost var all := DiagonalEffectives(chans, num);
    var i := 0;
    while i < num
      invariant 0 <= i && (i <= num || (i == 0 && num < 0))
      invariant effective == outEffective + all[..i]
    {
      var minLatency: u64 := U64_MAX;
      ghost var lats: seq<u64> := [];
      for c := 0 to |chans|
        invariant |lats| == c && minLatency == Minimum(lats)
        invariant forall b :: 0 <= b < c ==> lats[b] == chans[b][i].latency
      {
        var lat := chans[c][i].latency;
        minLatency := if lat < minLatency then lat else minLatency;
        assert (lats + [lat])[..c] == lats;
        lats := lats + [lat];
      }
      assert lats == Latencies(chans, num, Diagonals(|chans|, num, 0)[i]);
      effective := effective + [minLatency];
      i := i + 1;
    }
    DiagonalsAreFastest(chans, num, outEffective);
    return |effective|, effective;
  }
}
