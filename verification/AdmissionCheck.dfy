/**
 The utilization check of execute_benchmarks (benchmark/source/main.cpp): for which pools
 of free cores it guarantees that the allocations that follow succeed.
 */
module AdmissionCheck {
  import opened Bits
  import opened Processors
  import opened ThreadPool

  /** The assertion on the approximate utilization, with the thread-to-core ratio as a fraction. */
  predicate Admitted(freeThreads: nat, freeCores: nat, channels: nat, stress: nat)
    requires freeCores > 0
  {
    (channels * freeThreads + stress * freeCores) / freeCores + 1 < freeThreads
  }

  /** Whatever cores the map yields first, there is enough for all channels and stress threads. */
  ghost predicate Guaranteed(s: Pool, channels: nat, stress: nat) {
    channels <= s.freeCores
    && forall chosen: set<CoreId> :: chosen <= s.free.Keys && |chosen| == channels ==> Suffices(s, chosen, stress)
  }

  /** After the chosen cores there are enough threads left. */
  ghost predicate Suffices(s: Pool, chosen: set<CoreId>, stress: nat) {
    chosen <= s.free.Keys && ListedTotal(s.free, chosen) + stress <= s.freeThreads
  }

  lemma {:induction false} ListedTotalSplit(lists: map<CoreId, seq<nat>>, ids: set<CoreId>, k: CoreId)
    requires ids <= lists.Keys && k in ids
    ensures ListedTotal(lists, ids) == |lists[k]| + ListedTotal(lists, ids - {k})
    decreases ids
  {
    var id :| id in ids && ListedTotal(lists, ids) == |lists[id]| + ListedTotal(lists, ids - {id});
    if id != k {
      ListedTotalSplit(lists, ids - {id}, k);
      ListedTotalSplit(lists, ids - {k}, id);
      assert ids - {id} - {k} == ids - {k} - {id};
    }
  }

  lemma ListedTotalAdd(lists: map<CoreId, seq<nat>>, ids: set<CoreId>, k: CoreId)
    requires ids <= lists.Keys && k in lists && k !in ids
    ensures ListedTotal(lists, ids + {k}) == ListedTotal(lists, ids) + |lists[k]|
  {
    ListedTotalSplit(lists, ids + {k}, k);
    assert ids + {k} - {k} == ids;
  }

  /** Every free core has t threads. */
  ghost predicate Uniform(s: Pool, t: int) {
    forall id :: id in s.free ==> |s.free[id]| == t
  }

  lemma {:induction false} UniformTotal(s: Pool, t: int, ids: set<CoreId>)
    requires ids <= s.free.Keys && Uniform(s, t)
    ensures ListedTotal(s.free, ids) == t * |ids|
    decreases ids
  {
    if ids != {} {
      var id :| id in ids;
      ListedTotalSplit(s.free, ids, id);
      UniformTotal(s, t, ids - {id});
      assert |ids| == |ids - {id}| + 1;
      assert t * |ids| == t * |ids - {id}| + t;
    }
  }

  // The largest cores.

  ghost predicate IsLongest(lists: map<CoreId, seq<nat>>, ids: set<CoreId>, id: CoreId)
    requires ids <= lists.Keys
  {
    id in ids && forall other :: other in ids ==> |lists[other]| <= |lists[id]|
  }

  lemma {:induction false} SomeIsLongest(lists: map<CoreId, seq<nat>>, ids: set<CoreId>)
    requires ids <= lists.Keys && ids != {}
    ensures exists id :: IsLongest(lists, ids, id)
    decreases ids
  {
    var id :| id in ids;
    if ids == {id} {
      assert IsLongest(lists, ids, id);
    } else {
      SomeIsLongest(lists, ids - {id});
      var top :| IsLongest(lists, ids - {id}, top);
      assert IsLongest(lists, ids, if |lists[top]| <= |lists[id]| then id else top);
    }
  }

  /** The total length of the k longest lists. */
  ghost function LargestTotal(lists: map<CoreId, seq<nat>>, ids: set<CoreId>, k: nat): nat
    requires ids <= lists.Keys
  {
    if k == 0 || ids == {} then 0
    else
      SomeIsLongest(lists, ids);
      var id :| IsLongest(lists, ids, id);
      |lists[id]| + LargestTotal(lists, ids - {id}, k - 1)
  }

  lemma LargestUnfolds(lists: map<CoreId, seq<nat>>, ids: set<CoreId>, k: nat) returns (id: CoreId)
    requires ids <= lists.Keys && ids != {} && k > 0
    ensures IsLongest(lists, ids, id)
    ensures LargestTotal(lists, ids, k) == |lists[id]| + LargestTotal(lists, ids - {id}, k - 1)
  {
    SomeIsLongest(lists, ids);
    id :| IsLongest(lists, ids, id)
      && LargestTotal(lists, ids, k) == |lists[id]| + LargestTotal(lists, ids - {id}, k - 1);
  }

  lemma OneOf<T>(chosen: set<T>, preferred: T) returns (out: T)
    requires chosen != {}
    ensures out in chosen && (preferred in chosen ==> out == preferred)
  {
    if preferred in chosen {
      out := preferred;
    } else {
      out :| out in chosen;
    }
  }

  /** The number of threads on the k largest free cores. */
  ghost function Top(s: Pool, k: nat): nat {
    LargestTotal(s.free, s.free.Keys, k)
  }

  /** No choice of k cores has more threads than the k largest. */
  lemma {:induction false} LargestIsMost(lists: map<CoreId, seq<nat>>, ids: set<CoreId>, k: nat, chosen: set<CoreId>)
    requires ids <= lists.Keys && chosen <= ids && |chosen| == k
    ensures ListedTotal(lists, chosen) <= LargestTotal(lists, ids, k)
    decreases k
  {
    if k > 0 {
      assert chosen != {};
      var id := LargestUnfolds(lists, ids, k);
      var out := OneOf(chosen, id);
      ListedTotalSplit(lists, chosen, out);
      assert |chosen - {out}| == k - 1 && chosen - {out} <= ids - {id};
      LargestIsMost(lists, ids - {id}, k - 1, chosen - {out});
    }
  }

  /** Some choice has as many. */
  lemma {:induction false} LargestIsReached(lists: map<CoreId, seq<nat>>, ids: set<CoreId>, k: nat) returns (chosen: set<CoreId>)
    requires ids <= lists.Keys && k <= |ids|
    ensures chosen <= ids && |chosen| == k && ListedTotal(lists, chosen) == LargestTotal(lists, ids, k)
    decreases k
  {
    chosen := {};
    if k > 0 {
      assert ids != {};
      var id := LargestUnfolds(lists, ids, k);
      chosen := LargestIsReached(lists, ids - {id}, k - 1);
      ListedTotalAdd(lists, chosen, id);
      chosen := chosen + {id};
    }
  }

  /** Success is certain exactly when it is certain for the largest cores. */
  lemma GuaranteedExactly(s: Pool, channels: nat, stress: nat)
    requires s.freeCores == |s.free|
    ensures Guaranteed(s, channels, stress) <==> channels <= s.freeCores && Top(s, channels) + stress <= s.freeThreads
  {
    assert |s.free| == |s.free.Keys|;
    if channels <= s.freeCores {
      var largest := LargestIsReached(s.free, s.free.Keys, channels);
      assert Guaranteed(s, channels, stress) ==> Suffices(s, largest, stress);
      forall chosen: set<CoreId> | chosen <= s.free.Keys && |chosen| == channels
        ensures ListedTotal(s.free, chosen) <= Top(s, channels)
      {
        LargestIsMost(s.free, s.free.Keys, channels, chosen);
      }
    }
  }

  // The check in terms of whole threads.

  /** The channels' share of the free threads, rounded down. */
  function Share(T: nat, C: nat, channels: nat): nat
    requires C > 0
  {
    channels * T / C
  }

  lemma QuotientOfSum(a: nat, stress: nat, C: nat)
    requires C > 0
    ensures (a + stress * C) / C == a / C + stress
  {
    assert a == a / C * C + a % C;
    assert a + stress * C == (a / C + stress) * C + a % C;
    DivModUnique(a + stress * C, C, a / C + stress, a % C);
  }

  lemma AdmittedShare(T: nat, C: nat, channels: nat, stress: nat)
    requires C > 0
    ensures Admitted(T, C, channels, stress) <==> Share(T, C, channels) + stress + 1 < T
  {
    QuotientOfSum(channels * T, stress, C);
  }

  lemma MoreIsMore(t: nat, a: nat, b: nat)
    requires a <= b
    ensures t * a <= t * b
  {
  }

  /** A quotient is at least q when the dividend is at least q times the divisor. */
  lemma QuotientAtLeast(a: nat, q: nat, C: nat)
    requires C > 0 && q * C <= a
    ensures q <= a / C
  {
    assert a == a / C * C + a % C;
    if a / C < q {
      MoreIsMore(C, a / C + 1, q);
    }
  }

  /** An admitted request leaves at least one core. */
  lemma ShareOfAll(T: nat, C: nat, channels: nat)
    requires C > 0 && channels >= C
    ensures Share(T, C, channels) >= T
  {
    MoreIsMore(T, C, channels);
    QuotientAtLeast(channels * T, T, C);
  }

  /** The check is sound for a pool: whatever it admits can be served, whichever cores the map yields. */
  ghost predicate CheckIsSound(s: Pool)
    requires s.freeCores > 0 && s.freeThreads >= 0
  {
    forall channels: nat, stress: nat ::
      Admitted(s.freeThreads, s.freeCores, channels, stress) ==> Guaranteed(s, channels, stress)
  }

  /** The k largest free cores exceed the average share of k cores by at most two threads. */
  ghost predicate NearAverage(s: Pool, channels: nat)
    requires s.freeCores > 0 && s.freeThreads >= 0
  {
    var share := Share(s.freeThreads, s.freeCores, channels);
    share + 1 < s.freeThreads ==> Top(s, channels) <= share + 2
  }

  lemma SoundOneWay(s: Pool, channels: nat, stress: nat)
    requires s.freeCores == |s.free| > 0 && s.freeThreads >= 0 && NearAverage(s, channels)
    requires Admitted(s.freeThreads, s.freeCores, channels, stress)
    ensures channels < s.freeCores && Guaranteed(s, channels, stress)
  {
    AdmittedShare(s.freeThreads, s.freeCores, channels, stress);
    GuaranteedExactly(s, channels, stress);
    if channels >= s.freeCores {
      ShareOfAll(s.freeThreads, s.freeCores, channels);
    }
  }

  lemma SoundOtherWay(s: Pool, channels: nat)
    requires s.freeCores == |s.free| > 0 && s.freeThreads >= 0 && CheckIsSound(s)
    ensures NearAverage(s, channels)
  {
    var share := Share(s.freeThreads, s.freeCores, channels);
    if share + 1 < s.freeThreads {
      var stress: nat := s.freeThreads - share - 2;
      AdmittedShare(s.freeThreads, s.freeCores, channels, stress);
      GuaranteedExactly(s, channels, stress);
    }
  }

  /** Exactly for which pools the check suffices. */
  lemma CheckIsSoundExactly(s: Pool)
    requires s.freeCores == |s.free| > 0 && s.freeThreads >= 0
    ensures CheckIsSound(s) <==> forall channels: nat :: NearAverage(s, channels)
  {
    if CheckIsSound(s) {
      forall channels: nat ensures NearAverage(s, channels) {
        SoundOtherWay(s, channels);
      }
    }
    if forall channels: nat :: NearAverage(s, channels) {
      forall channels: nat, stress: nat | Admitted(s.freeThreads, s.freeCores, channels, stress)
        ensures Guaranteed(s, channels, stress)
      {
        SoundOneWay(s, channels, stress);
      }
    }
  }

  /** An admitted request always leaves a core, so there is one for every channel. */
  lemma AdmittedChannelsFit(T: nat, C: nat, channels: nat, stress: nat)
    requires C > 0 && Admitted(T, C, channels, stress)
    ensures channels < C
  {
    AdmittedShare(T, C, channels, stress);
    if channels >= C {
      ShareOfAll(T, C, channels);
    }
  }

  // Equal cores.

  lemma UniformTop(s: Pool, t: nat, k: nat)
    requires Uniform(s, t) && k <= |s.free|
    ensures Top(s, k) == t * k
  {
    assert |s.free| == |s.free.Keys|;
    var chosen := LargestIsReached(s.free, s.free.Keys, k);
    UniformTotal(s, t, chosen);
  }

  lemma ShareAtLeast(T: nat, C: nat, t: nat, channels: nat)
    requires C > 0 && t * C <= T
    ensures t * channels <= Share(T, C, channels)
  {
    MoreIsMore(channels, t * C, T);
    assert channels * (t * C) == (t * channels) * C;
    QuotientAtLeast(channels * T, t * channels, C);
  }

  lemma UniformThreads(procs: Procs, s: Pool, t: nat)
    requires Inv(procs, s) && Uniform(s, t)
    ensures t * s.freeCores <= s.freeThreads
  {
    FreeThreadsAreListed(procs, s);
    UniformTotal(s, t, s.free.Keys);
    assert |s.free| == |s.free.Keys|;
  }

  /** With equally sized free cores the check suffices, also when other cores are partially free. */
  lemma AdmissionGuarantees(procs: Procs, s: Pool, t: nat)
    requires Inv(procs, s) && Uniform(s, t) && s.freeCores > 0
    ensures s.freeThreads >= 0 && CheckIsSound(s)
  {
    UniformThreads(procs, s, t);
    forall channels: nat ensures NearAverage(s, channels) {
      if channels >= s.freeCores {
        ShareOfAll(s.freeThreads, s.freeCores, channels);
      } else {
        UniformTop(s, t, channels);
        ShareAtLeast(s.freeThreads, s.freeCores, t, channels);
      }
    }
    CheckIsSoundExactly(s);
  }
}
