/**
 What the pairing does on any input, and what it does not depend on.
 */
module PairingInvariance {
  import opened Sorting
  import opened Pairing
  import opened PairingOptimality

  // Conservation, with no assumption on the timestamps.

  /**
   The merge stops when some channel runs out, and up to its final head every sample of
   every channel was either paired or discarded.
   */
  lemma {:induction false} EverySampleIsAccountedFor(chans: Channels, num: int, idx: Tuple)
    requires Filled(chans, num) && |idx| == |chans| > 0
    ensures var o := Run(chans, num, idx);
      && Exhausted(num, o.heads)
      && (forall c :: 0 <= c < |chans| ==> o.heads[c] == idx[c] + |o.tuples| + o.discarded[c])
      && (forall c :: 0 <= c < |chans| && idx[c] <= num ==> o.heads[c] <= num)
    decreases Remaining(num, idx)
  {
    if Exhausted(num, idx) {
    } else if Close(Timestamps(chans, num, idx)) {
      RemainingAfterAdvanceAll(num, idx);
      EverySampleIsAccountedFor(chans, num, AdvanceAll(idx));
    } else {
      var lag := FirstLagging(Timestamps(chans, num, idx));
      RemainingAfterAdvance(num, idx, lag);
      EverySampleIsAccountedFor(chans, num, Advance(idx, lag));
    }
  }

  /** Paired samples plus discarded samples are the consumed samples, over all channels. */
  lemma SamplesAreConserved(chans: Channels, num: int)
    requires Filled(chans, num) && chans != []
    ensures var o := Run(chans, num, Zeros(|chans|));
      Sum(o.heads) == |o.tuples| * |chans| + Sum(o.discarded)
  {
    var o := Run(chans, num, Zeros(|chans|));
    EverySampleIsAccountedFor(chans, num, Zeros(|chans|));
    SumOfShifted(o.heads, o.discarded, |o.tuples|);
  }

  lemma {:induction false} SumOfShifted(s: seq<int>, t: seq<int>, k: int)
    requires |s| == |t| && forall i :: 0 <= i < |s| ==> s[i] == k + t[i]
    ensures Sum(s) == k * |s| + Sum(t)
  {
    if s != [] {
      SumOfShifted(s[1..], t[1..], k);
      assert k * |s| == k * (|s| - 1) + k;
    }
  }

  // The simple pairing is the special case in which nothing is ever too far apart.

  ghost predicate EqualIndicesClose(chans: Channels, num: int, from: nat) {
    forall i: nat :: from <= i < num ==> Pairable(chans, num, Diagonal(|chans|, i))
  }

  lemma DiagonalsUnfold(n: nat, num: int, i: nat)
    requires i < num
    ensures AdvanceAll(Diagonal(n, i)) == Diagonal(n, i + 1)
    ensures Diagonals(n, num, i) == [Diagonal(n, i)] + Diagonals(n, num, i + 1)
  {
  }

  lemma {:induction false} DiagonalRun(chans: Channels, num: int, i: nat)
    requires Filled(chans, num) && chans != [] && EqualIndicesClose(chans, num, i)
    ensures Run(chans, num, Diagonal(|chans|, i)).tuples == Diagonals(|chans|, num, i)
    decreases num - i
  {
    var idx := Diagonal(|chans|, i);
    if i < num {
      assert Pairable(chans, num, idx);
      RemainingAfterAdvanceAll(num, idx);
      DiagonalsUnfold(|chans|, num, i);
      DiagonalRun(chans, num, i + 1);
    } else {
      assert idx[0] >= num;
    }
  }

  /** pair_samples_n pairs like pair_samples_n2 exactly when all equal-index tuples are close. */
  lemma AgreesWithSimplePairing(chans: Channels, num: int)
    requires Filled(chans, num) && chans != []
    ensures Run(chans, num, Zeros(|chans|)).tuples == Diagonals(|chans|, num, 0) <==> EqualIndicesClose(chans, num, 0)
    ensures EqualIndicesClose(chans, num, 0) ==> Emitted(chans, num, Zeros(|chans|)) == DiagonalEffectives(chans, num)
  {
    var zeros := Zeros(|chans|);
    assert zeros == Diagonal(|chans|, 0);
    if EqualIndicesClose(chans, num, 0) {
      DiagonalRun(chans, num, 0);
    }
    var out := Run(chans, num, zeros).tuples;
    RunIsGreedy(chans, num, zeros);
    GreedyIsChain(chans, num, zeros, out);
    if out == Diagonals(|chans|, num, 0) {
      forall i: nat | i < num
        ensures Pairable(chans, num, Diagonal(|chans|, i))
      {
        assert out[i] == Diagonal(|chans|, i);
      }
    }
  }

  // The order in which the channels are listed does not matter.

  /** p and q are permutations of the n channels, inverse to each other. */
  ghost predicate Inverse(n: nat, p: seq<nat>, q: seq<nat>) {
    && |p| == |q| == n
    && (forall c :: 0 <= c < n ==> p[c] < n && q[p[c]] == c)
    && (forall c :: 0 <= c < n ==> q[c] < n && p[q[c]] == c)
  }

  ghost function Permute<T>(s: seq<T>, p: seq<nat>): (r: seq<T>)
    requires forall c :: 0 <= c < |p| ==> p[c] < |s|
    ensures |r| == |p| && forall c :: 0 <= c < |p| ==> r[c] == s[p[c]]
  {
    seq(|p|, c requires 0 <= c < |p| => s[p[c]])
  }

  lemma PermuteBack<T>(s: seq<T>, p: seq<nat>, q: seq<nat>)
    requires Inverse(|s|, p, q)
    ensures Permute(Permute(s, p), q) == s
  {
  }

  lemma PermutedInputs(chans: Channels, num: int, p: seq<nat>, q: seq<nat>)
    requires Inverse(|chans|, p, q) && Filled(chans, num)
    ensures Filled(Permute(chans, p), num)
    ensures Monotone(chans, num) ==> Monotone(Permute(chans, p), num)
  {
  }

  lemma PermutedPairable(chans: Channels, num: int, p: seq<nat>, q: seq<nat>, t: Tuple)
    requires Inverse(|chans|, p, q) && Pairable(chans, num, t)
    ensures Pairable(Permute(chans, p), num, Permute(t, p))
  {
    PermutedInputs(chans, num, p, q);
    var before, after := Timestamps(chans, num, t), Timestamps(Permute(chans, p), num, Permute(t, p));
    forall a, b | 0 <= a < |after| && 0 <= b < |after|
      ensures after[a] - after[b] < MAX_PAIR_GAP
    {
      assert after[a] == before[p[a]] && after[b] == before[p[b]];
    }
  }

  ghost function PermuteAll(ts: seq<Tuple>, p: seq<nat>, n: nat): (r: seq<Tuple>)
    requires |p| == n && forall c :: 0 <= c < n ==> p[c] < n
    requires forall i :: 0 <= i < |ts| ==> |ts[i]| == n
    ensures |r| == |ts| && forall i :: 0 <= i < |ts| ==> r[i] == Permute(ts[i], p)
  {
    seq(|ts|, i requires 0 <= i < |ts| => Permute(ts[i], p))
  }

  lemma PermutedChain(chans: Channels, num: int, p: seq<nat>, q: seq<nat>, ts: seq<Tuple>)
    requires Inverse(|chans|, p, q) && Chain(chans, num, ts)
    ensures forall i :: 0 <= i < |ts| ==> |ts[i]| == |chans|
    ensures Chain(Permute(chans, p), num, PermuteAll(ts, p, |chans|))
  {
    forall i | 0 <= i < |ts|
      ensures |ts[i]| == |chans|
    {
      assert Pairable(chans, num, ts[i]);
    }
    var r := PermuteAll(ts, p, |chans|);
    forall i | 0 <= i < |r|
      ensures Pairable(Permute(chans, p), num, r[i])
    {
      PermutedPairable(chans, num, p, q, ts[i]);
    }
    forall i, j | 0 <= i < j < |r|
      ensures Below(r[i], r[j])
    {
      assert Below(ts[i], ts[j]);
    }
  }

  lemma ChainIsFromZeros(chans: Channels, num: int, ts: seq<Tuple>)
    requires Chain(chans, num, ts)
    ensures From(Zeros(|chans|), ts)
  {
    forall i | 0 <= i < |ts|
      ensures AtMost(Zeros(|chans|), ts[i])
    {
      assert Pairable(chans, num, ts[i]);
    }
  }

  /** The merge of the permuted channels stays ahead of the permuted merge. */
  lemma PermutedRunBound(chans: Channels, num: int, p: seq<nat>, q: seq<nat>)
    requires Inverse(|chans|, p, q) && Filled(chans, num) && chans != [] && Monotone(chans, num)
    ensures Filled(Permute(chans, p), num)
    ensures var a, b := Run(chans, num, Zeros(|chans|)).tuples, Run(Permute(chans, p), num, Zeros(|chans|)).tuples;
      |a| <= |b| && forall i :: 0 <= i < |a| ==> |a[i]| == |b[i]| == |chans| && AtMost(b[i], Permute(a[i], p))
  {
    var zeros, other := Zeros(|chans|), Permute(chans, p);
    PermutedInputs(chans, num, p, q);
    var a, b := Run(chans, num, zeros).tuples, Run(other, num, zeros).tuples;
    RunIsGreedy(chans, num, zeros);
    GreedyIsChain(chans, num, zeros, a);
    RunIsGreedy(other, num, zeros);
    PermutedChain(chans, num, p, q, a);
    ChainIsFromZeros(other, num, PermuteAll(a, p, |chans|));
    StaysAhead(other, num, zeros, b, PermuteAll(a, p, |chans|));
    forall i | 0 <= i < |a|
      ensures |a[i]| == |b[i]| == |chans| && AtMost(b[i], Permute(a[i], p))
    {
      assert AtMost(b[i], PermuteAll(a, p, |chans|)[i]);
    }
  }

  lemma TuplesMeet(s: Tuple, t: Tuple, p: seq<nat>, q: seq<nat>)
    requires |s| == |t| && Inverse(|s|, p, q)
    requires AtMost(t, Permute(s, p)) && AtMost(s, Permute(t, q))
    ensures t == Permute(s, p)
  {
    forall c | 0 <= c < |t|
      ensures t[c] == s[p[c]]
    {
      assert s[p[c]] <= Permute(t, q)[p[c]] == t[c];
    }
  }

  /**
   Listing the channels in another order permutes the components of every emitted tuple
   and changes no effective latency.
   */
  lemma ChannelOrderIsIrrelevant(chans: Channels, num: int, p: seq<nat>, q: seq<nat>)
    requires Inverse(|chans|, p, q) && Filled(chans, num) && chans != [] && Monotone(chans, num)
    ensures Filled(Permute(chans, p), num)
    ensures var a, b := Run(chans, num, Zeros(|chans|)).tuples, Run(Permute(chans, p), num, Zeros(|chans|)).tuples;
      |a| == |b| && forall i :: 0 <= i < |a| ==> |a[i]| == |chans| && b[i] == Permute(a[i], p)
    ensures Emitted(chans, num, Zeros(|chans|)) == Emitted(Permute(chans, p), num, Zeros(|chans|))
  {
    var zeros, other := Zeros(|chans|), Permute(chans, p);
    PermutedRunBound(chans, num, p, q);
    PermutedInputs(chans, num, p, q);
    PermuteBack(chans, p, q);
    PermutedRunBound(other, num, q, p);
    var a, b := Run(chans, num, zeros).tuples, Run(other, num, zeros).tuples;
    forall i | 0 <= i < |a|
      ensures b[i] == Permute(a[i], p)
      ensures Effective(chans, num, a[i]) == Effective(other, num, b[i])
    {
      TuplesMeet(a[i], b[i], p, q);
      EffectiveOfPermuted(chans, num, p, q, a[i]);
    }
  }

  lemma EffectiveOfPermuted(chans: Channels, num: int, p: seq<nat>, q: seq<nat>, t: Tuple)
    requires Inverse(|chans|, p, q) && InBounds(chans, num, t) && InBounds(Permute(chans, p), num, Permute(t, p))
    requires chans != []
    ensures Effective(chans, num, t) == Effective(Permute(chans, p), num, Permute(t, p))
  {
    var x, y := Latencies(chans, num, t), Latencies(Permute(chans, p), num, Permute(t, p));
    MinimumIsLeast(x);
    MinimumIsLeast(y);
    var i :| 0 <= i < |x| && x[i] == Minimum(x);
    assert y[q[i]] == x[i];
    var j :| 0 <= j < |y| && y[j] == Minimum(y);
    assert x[p[j]] == y[j];
  }
}
