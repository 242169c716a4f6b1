/**
 The greedy pairing is an optimal matching: with timestamps that never decrease within a
 channel, no family of close tuples that uses each sample at most once is larger.
 */
module PairingOptimality {
  import opened Sorting
  import opened Pairing

  /** Timestamps come from a monotone counter: they never decrease within a channel. */
  ghost predicate Monotone(chans: Channels, num: int) {
    forall c, i, j :: 0 <= c < |chans| && 0 <= i <= j < num && j < |chans[c]| ==> chans[c][i].timestamp <= chans[c][j].timestamp
  }

  /** A tuple that may be paired: in bounds, and its timestamps are close. */
  ghost predicate Pairable(chans: Channels, num: int, t: Tuple) {
    InBounds(chans, num, t) && Close(Timestamps(chans, num, t))
  }

  /** In terms of the samples: every channel has a sample there, all within 400 ticks of each other. */
  lemma PairableOnSamples(chans: Channels, num: int, t: Tuple)
    requires Filled(chans, num)
    ensures Pairable(chans, num, t) <==>
      && |t| == |chans| && (forall c :: 0 <= c < |chans| ==> t[c] < num)
      && forall a, b :: 0 <= a < |chans| && 0 <= b < |chans| ==> chans[a][t[a]].timestamp < chans[b][t[b]].timestamp + 400
  {
    if |t| == |chans| && forall c :: 0 <= c < |chans| ==> t[c] < num {
      var ts := Timestamps(chans, num, t);
      assert forall c :: 0 <= c < |chans| ==> ts[c] == chans[c][t[c]].timestamp;
    } else if |t| == |chans| {
      assert Exhausted(num, t);
    }
  }

  ghost predicate AllPairable(chans: Channels, num: int, ts: seq<Tuple>) {
    forall i :: 0 <= i < |ts| ==> Pairable(chans, num, ts[i])
  }

  ghost predicate Below(s: Tuple, t: Tuple) {
    |s| == |t| && forall c :: 0 <= c < |s| ==> s[c] < t[c]
  }

  ghost predicate AtMost(s: Tuple, t: Tuple) {
    |s| == |t| && forall c :: 0 <= c < |s| ==> s[c] <= t[c]
  }

  /** A pairing in which every channel advances from each tuple to the next. */
  ghost predicate Chain(chans: Channels, num: int, ts: seq<Tuple>) {
    AllPairable(chans, num, ts) && forall i, j :: 0 <= i < j < |ts| ==> Below(ts[i], ts[j])
  }

  ghost predicate Disjoint(s: Tuple, t: Tuple) {
    |s| == |t| && forall c :: 0 <= c < |s| ==> s[c] != t[c]
  }

  /** Any set of pairable tuples, in any order and possibly crossing, that shares no sample. */
  ghost predicate Matching(chans: Channels, num: int, ts: seq<Tuple>) {
    AllPairable(chans, num, ts) && forall i, j :: 0 <= i < j < |ts| ==> Disjoint(ts[i], ts[j])
  }

  /** Every tuple lies at or after the heads. */
  ghost predicate From(idx: Tuple, ts: seq<Tuple>) {
    forall i :: 0 <= i < |ts| ==> AtMost(idx, ts[i])
  }

  /**
   The merge, when at each step any of the lagging channels may be the one that is
   advanced: tuples is a possible output from the given heads on.
   */
  ghost predicate GreedyRun(chans: Channels, num: int, idx: Tuple, tuples: seq<Tuple>)
    requires Filled(chans, num) && |idx| == |chans| > 0
    decreases Remaining(num, idx)
  {
    if Exhausted(num, idx) then
      tuples == []
    else if Close(Timestamps(chans, num, idx)) then
      RemainingAfterAdvanceAll(num, idx);
      tuples != [] && tuples[0] == idx && GreedyRun(chans, num, AdvanceAll(idx), tuples[1..])
    else
      exists lag :: Lagging(Timestamps(chans, num, idx), lag)
        && (RemainingAfterAdvance(num, idx, lag); GreedyRun(chans, num, Advance(idx, lag), tuples))
  }

  /** pair_samples_n, which takes the first lagging channel, is one of these merges. */
  lemma {:induction false} RunIsGreedy(chans: Channels, num: int, idx: Tuple)
    requires Filled(chans, num) && |idx| == |chans| > 0
    ensures GreedyRun(chans, num, idx, Run(chans, num, idx).tuples)
    decreases Remaining(num, idx)
  {
    if Exhausted(num, idx) {
    } else if Close(Timestamps(chans, num, idx)) {
      RemainingAfterAdvanceAll(num, idx);
      RunIsGreedy(chans, num, AdvanceAll(idx));
    } else {
      var lag := FirstLagging(Timestamps(chans, num, idx));
      RemainingAfterAdvance(num, idx, lag);
      RunIsGreedy(chans, num, Advance(idx, lag));
    }
  }

  /** What a merge emits is a chain. */
  lemma {:induction false} GreedyIsChain(chans: Channels, num: int, idx: Tuple, out: seq<Tuple>)
    requires Filled(chans, num) && |idx| == |chans| > 0
    requires GreedyRun(chans, num, idx, out)
    ensures Chain(chans, num, out) && From(idx, out)
    decreases Remaining(num, idx)
  {
    if Exhausted(num, idx) {
    } else if Close(Timestamps(chans, num, idx)) {
      RemainingAfterAdvanceAll(num, idx);
      GreedyIsChain(chans, num, AdvanceAll(idx), out[1..]);
      ChainCons(chans, num, idx, out);
    } else {
      var lag :| Lagging(Timestamps(chans, num, idx), lag)
        && (RemainingAfterAdvance(num, idx, lag); GreedyRun(chans, num, Advance(idx, lag), out));
      RemainingAfterAdvance(num, idx, lag);
      GreedyIsChain(chans, num, Advance(idx, lag), out);
    }
  }

  lemma ChainCons(chans: Channels, num: int, idx: Tuple, out: seq<Tuple>)
    requires out != [] && out[0] == idx && Pairable(chans, num, idx)
    requires Chain(chans, num, out[1..]) && From(AdvanceAll(idx), out[1..])
    ensures Chain(chans, num, out) && From(idx, out)
  {
    forall i | 0 <= i < |out|
      ensures Pairable(chans, num, out[i]) && AtMost(idx, out[i]) && (i > 0 ==> Below(idx, out[i]))
    {
      if i > 0 {
        assert out[1..][i - 1] == out[i];
        assert AtMost(AdvanceAll(idx), out[1..][i - 1]);
      }
    }
    forall i, j | 0 <= i < j < |out|
      ensures Below(out[i], out[j])
    {
      if i > 0 {
        assert Below(out[1..][i - 1], out[1..][j - 1]);
      }
    }
  }

  /**
   When the heads are too far apart, no pairable tuple at or after them uses the head
   of a lagging channel.
   */
  lemma LaggingHeadIsUnusable(chans: Channels, num: int, idx: Tuple, lag: nat, t: Tuple)
    requires Monotone(chans, num) && InBounds(chans, num, idx)
    requires !Close(Timestamps(chans, num, idx)) && Lagging(Timestamps(chans, num, idx), lag)
    requires Pairable(chans, num, t) && AtMost(idx, t)
    ensures AtMost(Advance(idx, lag), t)
  {
    var heads, ts := Timestamps(chans, num, idx), Timestamps(chans, num, t);
    var a, b :| 0 <= a < |heads| && 0 <= b < |heads| && heads[a] - heads[b] >= MAX_PAIR_GAP;
    assert heads[lag] <= heads[b];
    assert idx[a] <= t[a] && heads[a] <= ts[a];
    assert ts[a] - ts[lag] < MAX_PAIR_GAP;
    assert t[lag] != idx[lag];
  }

  lemma PairableAhead(chans: Channels, num: int, idx: Tuple, t: Tuple)
    requires Pairable(chans, num, t) && AtMost(idx, t)
    ensures !Exhausted(num, idx)
  {
  }

  /** Greedy stays ahead: its i-th tuple is no later, in any channel, than any chain's. */
  lemma {:induction false} StaysAhead(chans: Channels, num: int, idx: Tuple, out: seq<Tuple>, ts: seq<Tuple>)
    requires Filled(chans, num) && |idx| == |chans| > 0 && Monotone(chans, num)
    requires GreedyRun(chans, num, idx, out)
    requires Chain(chans, num, ts) && From(idx, ts)
    ensures |ts| <= |out|
    ensures forall i :: 0 <= i < |ts| ==> AtMost(out[i], ts[i])
    decreases Remaining(num, idx)
  {
    if ts != [] {
      PairableAhead(chans, num, idx, ts[0]);
    }
    if Exhausted(num, idx) {
    } else if Close(Timestamps(chans, num, idx)) {
      RemainingAfterAdvanceAll(num, idx);
      if ts != [] {
        ChainTail(chans, num, idx, ts);
        StaysAhead(chans, num, AdvanceAll(idx), out[1..], ts[1..]);
        forall i | 0 <= i < |ts|
          ensures AtMost(out[i], ts[i])
        {
          if i > 0 {
            assert out[1..][i - 1] == out[i] && ts[1..][i - 1] == ts[i];
          }
        }
      }
    } else {
      var lag :| Lagging(Timestamps(chans, num, idx), lag)
        && (RemainingAfterAdvance(num, idx, lag); GreedyRun(chans, num, Advance(idx, lag), out));
      RemainingAfterAdvance(num, idx, lag);
      forall i | 0 <= i < |ts|
        ensures AtMost(Advance(idx, lag), ts[i])
      {
        LaggingHeadIsUnusable(chans, num, idx, lag, ts[i]);
      }
      StaysAhead(chans, num, Advance(idx, lag), out, ts);
    }
  }

  lemma ChainTail(chans: Channels, num: int, idx: Tuple, ts: seq<Tuple>)
    requires ts != [] && Chain(chans, num, ts) && From(idx, ts)
    ensures Chain(chans, num, ts[1..]) && From(AdvanceAll(idx), ts[1..])
  {
    forall i | 0 <= i < |ts[1..]|
      ensures Pairable(chans, num, ts[1..][i]) && AtMost(AdvanceAll(idx), ts[1..][i])
    {
      assert ts[1..][i] == ts[i + 1];
      assert Below(ts[0], ts[i + 1]) && AtMost(idx, ts[0]);
    }
    forall i, j | 0 <= i < j < |ts[1..]|
      ensures Below(ts[1..][i], ts[1..][j])
    {
      assert Below(ts[i + 1], ts[j + 1]);
    }
  }

  /** All merges emit the same tuples: it does not matter which of the tied channels is advanced. */
  lemma TieBreakIsIrrelevant(chans: Channels, num: int, idx: Tuple, out: seq<Tuple>, other: seq<Tuple>)
    requires Filled(chans, num) && |idx| == |chans| > 0 && Monotone(chans, num)
    requires GreedyRun(chans, num, idx, out) && GreedyRun(chans, num, idx, other)
    ensures out == other
  {
    GreedyIsChain(chans, num, idx, out);
    GreedyIsChain(chans, num, idx, other);
    StaysAhead(chans, num, idx, out, other);
    StaysAhead(chans, num, idx, other, out);
    forall i | 0 <= i < |out|
      ensures out[i] == other[i]
    {
      assert AtMost(out[i], other[i]) && AtMost(other[i], out[i]);
    }
  }

  // Uncrossing: sorting every channel's indices turns a matching into a chain.

  /** The samples a family of tuples takes from channel c. */
  ghost function Column(ts: seq<Tuple>, c: nat): (r: seq<int>)
    ensures |r| == |ts|
    ensures forall i :: 0 <= i < |ts| && c < |ts[i]| ==> r[i] == ts[i][c]
  {
    if ts == [] then [] else [if c < |ts[0]| then ts[0][c] else 0] + Column(ts[1..], c)
  }

  ghost function StampAt(ch: seq<Sample>, i: int): int {
    if 0 <= i < |ch| then ch[i].timestamp else 0
  }

  ghost function Stamps(ch: seq<Sample>, idx: seq<int>): (r: seq<int>)
    ensures |r| == |idx|
    ensures forall i :: 0 <= i < |idx| ==> r[i] == StampAt(ch, idx[i])
  {
    if idx == [] then [] else [StampAt(ch, idx[0])] + Stamps(ch, idx[1..])
  }

  lemma {:induction false} StampsOfInsert(ch: seq<Sample>, x: int, s: seq<int>, v: int)
    ensures CountAtMost(Stamps(ch, Insert(x, s)), v) == CountAtMost(Stamps(ch, s), v) + if StampAt(ch, x) <= v then 1 else 0
  {
    var r := Insert(x, s);
    assert CountAtMost(Stamps(ch, r), v) == (if StampAt(ch, r[0]) <= v then 1 else 0) + CountAtMost(Stamps(ch, r[1..]), v) by {
      assert Stamps(ch, r)[1..] == Stamps(ch, r[1..]);
    }
    if s == [] || x <= s[0] {
      assert r[1..] == s;
    } else {
      assert r[1..] == Insert(x, s[1..]);
      StampsOfInsert(ch, x, s[1..], v);
      assert Stamps(ch, s)[1..] == Stamps(ch, s[1..]);
    }
  }

  lemma {:induction false} StampsOfSorted(ch: seq<Sample>, s: seq<int>, v: int)
    ensures CountAtMost(Stamps(ch, Sort(s)), v) == CountAtMost(Stamps(ch, s), v)
  {
    if s != [] {
      StampsOfInsert(ch, s[0], Sort(s[1..]), v);
      StampsOfSorted(ch, s[1..], v);
      assert Stamps(ch, s)[1..] == Stamps(ch, s[1..]);
    }
  }

  ghost predicate Distinct(s: seq<int>) {
    forall i, j :: 0 <= i < j < |s| ==> s[i] != s[j]
  }

  ghost predicate Ascending(s: seq<int>) {
    forall i, j :: 0 <= i < j < |s| ==> s[i] < s[j]
  }

  ghost predicate InRange(s: seq<int>, num: int) {
    forall i :: 0 <= i < |s| ==> 0 <= s[i] < num
  }

  lemma {:induction false} InsertDistinct(x: int, s: seq<int>)
    requires Ascending(s) && x !in s
    ensures Ascending(Insert(x, s)) && Insert(x, s) != []
    ensures Insert(x, s)[0] == x || (s != [] && Insert(x, s)[0] == s[0])
  {
    if s != [] && x > s[0] {
      assert forall i :: 0 <= i < |s[1..]| ==> s[1..][i] in s;
      InsertDistinct(x, s[1..]);
    }
  }

  lemma {:induction false} SortDistinct(s: seq<int>)
    requires Distinct(s)
    ensures Ascending(Sort(s))
  {
    if s != [] {
      SortDistinct(s[1..]);
      SortKeepsElements(s[1..]);
      assert s[0] !in s[1..];
      InsertDistinct(s[0], Sort(s[1..]));
    }
  }

  lemma SortKeepsElements(s: seq<int>)
    ensures forall v :: v in Sort(s) <==> v in s
  {
    forall v ensures v in Sort(s) <==> v in s {
      assert v in Sort(s) <==> v in multiset(Sort(s));
      assert v in s <==> v in multiset(s);
    }
  }

  lemma SortInRange(s: seq<int>, num: int)
    requires InRange(s, num)
    ensures InRange(Sort(s), num)
  {
    SortKeepsElements(s);
    forall i | 0 <= i < |s|
      ensures 0 <= Sort(s)[i] < num
    {
      assert Sort(s)[i] in s;
    }
  }

  lemma StampsAreSorted(chans: Channels, num: int, c: nat, s: seq<int>)
    requires Filled(chans, num) && Monotone(chans, num) && c < |chans|
    requires IsSorted(s) && InRange(s, num)
    ensures IsSorted(Stamps(chans[c], s))
  {
  }

  /**
   Two channels: sorting both columns keeps every row close, because the timestamps of
   one column exceed their partners by less than the gap, and order statistics inherit that.
   */
  lemma ColumnsStayClose(chans: Channels, num: int, a: nat, b: nat, s: seq<int>, t: seq<int>)
    requires Filled(chans, num) && Monotone(chans, num) && a < |chans| && b < |chans|
    requires |s| == |t| && InRange(s, num) && InRange(t, num)
    requires Within(Stamps(chans[a], s), Stamps(chans[b], t), MAX_PAIR_GAP - 1)
    ensures Within(Stamps(chans[a], Sort(s)), Stamps(chans[b], Sort(t)), MAX_PAIR_GAP - 1)
  {
    SortInRange(s, num);
    SortInRange(t, num);
    StampsAreSorted(chans, num, a, Sort(s));
    StampsAreSorted(chans, num, b, Sort(t));
    SortedStampsCount(chans[a], s);
    SortedStampsCount(chans[b], t);
    Dominance(Stamps(chans[a], s), Stamps(chans[b], t), Stamps(chans[a], Sort(s)), Stamps(chans[b], Sort(t)), MAX_PAIR_GAP - 1);
  }

  lemma SortedStampsCount(ch: seq<Sample>, s: seq<int>)
    ensures SameCounts(Stamps(ch, Sort(s)), Stamps(ch, s))
  {
    forall v ensures CountAtMost(Stamps(ch, Sort(s)), v) == CountAtMost(Stamps(ch, s), v) {
      StampsOfSorted(ch, s, v);
    }
  }

  /** Row j of the sorted columns. */
  ghost function UncrossedRow(n: nat, ts: seq<Tuple>, j: nat): Tuple
    requires j < |ts|
  {
    seq(n, c requires 0 <= c < n => NonNegative(Sort(Column(ts, c))[j]))
  }

  function NonNegative(v: int): nat {
    if v >= 0 then v else 0
  }

  lemma ColumnFacts(chans: Channels, num: int, ts: seq<Tuple>, c: nat)
    requires Matching(chans, num, ts) && c < |chans|
    ensures InRange(Column(ts, c), num) && InRange(Sort(Column(ts, c)), num) && Ascending(Sort(Column(ts, c)))
  {
    var col := Column(ts, c);
    forall i | 0 <= i < |ts|
      ensures 0 <= col[i] < num
    {
      assert Pairable(chans, num, ts[i]);
    }
    forall i, j | 0 <= i < j < |ts|
      ensures col[i] != col[j]
    {
      assert Pairable(chans, num, ts[i]) && Disjoint(ts[i], ts[j]);
    }
    SortInRange(col, num);
    SortDistinct(col);
  }

  lemma ColumnsClose(chans: Channels, num: int, ts: seq<Tuple>, a: nat, b: nat)
    requires Matching(chans, num, ts) && Filled(chans, num) && a < |chans| && b < |chans|
    ensures Within(Stamps(chans[a], Column(ts, a)), Stamps(chans[b], Column(ts, b)), MAX_PAIR_GAP - 1)
  {
    forall i | 0 <= i < |ts|
      ensures Stamps(chans[a], Column(ts, a))[i] <= Stamps(chans[b], Column(ts, b))[i] + (MAX_PAIR_GAP - 1)
    {
      assert Pairable(chans, num, ts[i]);
      var stamps := Timestamps(chans, num, ts[i]);
      assert stamps[a] - stamps[b] < MAX_PAIR_GAP;
    }
  }

  lemma RowIsPairable(chans: Channels, num: int, ts: seq<Tuple>, j: nat)
    requires Matching(chans, num, ts) && Filled(chans, num) && Monotone(chans, num) && j < |ts|
    ensures Pairable(chans, num, UncrossedRow(|chans|, ts, j))
  {
    forall c | 0 <= c < |chans|
      ensures 0 <= Sort(Column(ts, c))[j] < num
    {
      ColumnFacts(chans, num, ts, c);
    }
    var row := UncrossedRow(|chans|, ts, j);
    var stamps := Timestamps(chans, num, row);
    forall a, b | 0 <= a < |stamps| && 0 <= b < |stamps|
      ensures stamps[a] - stamps[b] < MAX_PAIR_GAP
    {
      ColumnFacts(chans, num, ts, a);
      ColumnFacts(chans, num, ts, b);
      ColumnsClose(chans, num, ts, a, b);
      ColumnsStayClose(chans, num, a, b, Column(ts, a), Column(ts, b));
      assert Stamps(chans[a], Sort(Column(ts, a)))[j] == stamps[a];
      assert Stamps(chans[b], Sort(Column(ts, b)))[j] == stamps[b];
    }
  }

  lemma RowsAscend(chans: Channels, num: int, ts: seq<Tuple>, i: nat, j: nat)
    requires Matching(chans, num, ts) && i < j < |ts|
    ensures Below(UncrossedRow(|chans|, ts, i), UncrossedRow(|chans|, ts, j))
  {
    forall c | 0 <= c < |chans|
      ensures UncrossedRow(|chans|, ts, i)[c] < UncrossedRow(|chans|, ts, j)[c]
    {
      ColumnFacts(chans, num, ts, c);
    }
  }

  ghost function Uncrossed(n: nat, ts: seq<Tuple>): seq<Tuple> {
    seq(|ts|, j requires 0 <= j < |ts| => UncrossedRow(n, ts, j))
  }

  /** Any matching, crossing or not, becomes a chain of the same length by sorting its columns. */
  lemma UncrossedIsChain(chans: Channels, num: int, ts: seq<Tuple>)
    requires Matching(chans, num, ts) && Filled(chans, num) && Monotone(chans, num)
    ensures Chain(chans, num, Uncrossed(|chans|, ts))
  {
    var chain := Uncrossed(|chans|, ts);
    forall j | 0 <= j < |chain|
      ensures Pairable(chans, num, chain[j])
    {
      RowIsPairable(chans, num, ts, j);
    }
    forall i, j | 0 <= i < j < |chain|
      ensures Below(chain[i], chain[j])
    {
      RowsAscend(chans, num, ts, i, j);
    }
  }

  /**
   The pairing is optimal: the emitted tuples form a matching, and every matching, of
   whatever shape, has at most as many tuples.
   */
  lemma PairingIsOptimal(chans: Channels, num: int, ts: seq<Tuple>)
    requires Filled(chans, num) && chans != [] && Monotone(chans, num)
    requires Matching(chans, num, ts)
    ensures Matching(chans, num, Run(chans, num, Zeros(|chans|)).tuples)
    ensures |ts| <= |Run(chans, num, Zeros(|chans|)).tuples|
  {
    var zeros := Zeros(|chans|);
    var out := Run(chans, num, zeros).tuples;
    RunIsGreedy(chans, num, zeros);
    GreedyIsChain(chans, num, zeros, out);
    assert Matching(chans, num, out) by {
      forall i, j | 0 <= i < j < |out|
        ensures Disjoint(out[i], out[j])
      {
        assert Below(out[i], out[j]);
      }
    }
    UncrossedIsChain(chans, num, ts);
    var chain := Uncrossed(|chans|, ts);
    assert From(zeros, chain) by {
      forall i | 0 <= i < |chain|
        ensures AtMost(zeros, chain[i])
      {
        assert Pairable(chans, num, chain[i]);
      }
    }
    StaysAhead(chans, num, zeros, out, chain);
  }
}
