/**
 Admission and allocation of a benchmark's cores and threads (execute_benchmarks,
 benchmark/source/main.cpp).
 */
module Admission {
  import opened Machine
  import opened Processors
  import opened ThreadPool
  import opened ThreadManager
  import opened AdmissionCheck

  /** The selected benchmark arms and their sizes. */
  datatype Arms = Arms(singleQuiet: bool, hedgedQuiet: bool, singleStress: bool, hedgedStress: bool,
                       channels: nat, stress: nat)

  predicate AnyArm(a: Arms) {
    a.singleQuiet || a.hedgedQuiet || a.singleStress || a.hedgedStress
  }

  /** channelsToBenchmark */
  function ChannelsToBenchmark(a: Arms): nat {
    if a.singleQuiet || a.singleStress then 1 else a.channels
  }

  /** stressThreadsToUse */
  function StressThreadsToUse(a: Arms): nat {
    if a.singleQuiet || a.hedgedQuiet then 0 else a.stress
  }

  /** Every selected arm gets a core for each channel it measures, and its stress threads. */
  predicate ArmsAreServed(a: Arms, cores: nat, stress: nat) {
    && (a.singleQuiet || a.singleStress ==> 1 <= cores)
    && (a.hedgedQuiet || a.hedgedStress ==> a.channels <= cores)
    && (a.singleStress || a.hedgedStress ==> a.stress <= stress)
  }

  datatype Arm = SingleQuiet | HedgedQuiet | SingleStress | HedgedStress

  predicate Selected(a: Arms, arm: Arm) {
    match arm
    case SingleQuiet => a.singleQuiet
    case HedgedQuiet => a.hedgedQuiet
    case SingleStress => a.singleStress
    case HedgedStress => a.hedgedStress
  }

  function CoresOfArm(a: Arms, arm: Arm): nat {
    if arm.SingleQuiet? || arm.SingleStress? then 1 else a.channels
  }

  function StressOfArm(a: Arms, arm: Arm): nat {
    if arm.SingleQuiet? || arm.HedgedQuiet? then 0 else a.stress
  }

  /** Of all selected arms the allocation follows the one that needs least, in cores and in stress threads. */
  lemma AllocatesLeastNeed(a: Arms)
    requires AnyArm(a) && a.channels >= 1
    ensures exists arm :: Selected(a, arm) && CoresOfArm(a, arm) == ChannelsToBenchmark(a)
    ensures exists arm :: Selected(a, arm) && StressOfArm(a, arm) == StressThreadsToUse(a)
    ensures forall arm :: Selected(a, arm) ==>
      ChannelsToBenchmark(a) <= CoresOfArm(a, arm) && StressThreadsToUse(a) <= StressOfArm(a, arm)
  {
    if a.singleQuiet {
      assert Selected(a, SingleQuiet);
    }
    if a.hedgedQuiet {
      assert Selected(a, HedgedQuiet);
    }
    if a.singleStress {
      assert Selected(a, SingleStress);
    }
    if a.hedgedStress {
      assert Selected(a, HedgedStress);
    }
  }

  /** The most channel cores that a selected arm uses. */
  function CoresNeeded(a: Arms): nat {
    if (a.hedgedQuiet || a.hedgedStress) && (a.channels >= 1 || !(a.singleQuiet || a.singleStress)) then a.channels
    else if a.singleQuiet || a.singleStress then 1 else 0
  }

  /** The most stress threads that a selected arm uses. */
  function StressNeeded(a: Arms): nat {
    if a.singleStress || a.hedgedStress then a.stress else 0
  }

  lemma NeedIsLeast(a: Arms, cores: nat, stress: nat)
    ensures ArmsAreServed(a, cores, stress) <==> CoresNeeded(a) <= cores && StressNeeded(a) <= stress
  {
  }

  /**
   What is allocated serves the selected arms exactly when single and hedged arms are not
   mixed (unless there is one channel), nor quiet and stress arms (unless there is no stress).
   It is never more than an arm needs.
   */
  lemma ServedWhenNotMixed(a: Arms)
    requires AnyArm(a)
    ensures ArmsAreServed(a, ChannelsToBenchmark(a), StressThreadsToUse(a)) <==>
      && !((a.singleQuiet || a.singleStress) && (a.hedgedQuiet || a.hedgedStress) && a.channels > 1)
      && !((a.singleQuiet || a.hedgedQuiet) && (a.singleStress || a.hedgedStress) && a.stress > 0)
    ensures ChannelsToBenchmark(a) <= CoresNeeded(a) && StressThreadsToUse(a) <= StressNeeded(a)
  {
  }

  // The allocation loops.

  /** The cores taken so far, and what that leaves of the pool. */
  ghost predicate AfterCores(before: Pool, now: Pool, taken: set<CoreId>) {
    && taken <= before.free.Keys
    && now.cores == before.cores && now.partial == before.partial
    && now.free == before.free - taken
    && now.freeCores == before.freeCores - |taken|
    && now.freeThreads == before.freeThreads - ListedTotal(before.free, taken)
  }

  lemma OneCoreMore(before: Pool, now: Pool, taken: set<CoreId>, key: CoreId)
    requires AfterCores(before, now, taken) && key in now.free
    ensures key !in taken && AfterCores(before, TakeCore(now, key), taken + {key})
  {
    ListedTotalAdd(before.free, taken, key);
    assert now.free - {key} == before.free - (taken + {key});
  }

  /** The core of every processor in the list. */
  ghost function CoresUsed(procs: seq<LogicalProcessor>): set<CoreId> {
    set i | 0 <= i < |procs| :: procs[i].UniqueCoreID()
  }

  ghost predicate DifferentCores(procs: seq<LogicalProcessor>) {
    forall i, j :: 0 <= i < j < |procs| ==> procs[i].UniqueCoreID() != procs[j].UniqueCoreID()
  }

  /** No real processor looks like the one that stands for failure. */
  ghost predicate NoSentinel(procs: Procs) {
    forall i :: 0 <= i < |procs| ==> procs[i].coreID != U32_MAX
  }

  lemma NothingTaken(s: Pool)
    ensures AfterCores(s, s, CoresUsed([])) && |CoresUsed([])| == 0
  {
    assert s.free - {} == s.free;
    assert CoresUsed([]) == {};
  }

  lemma CoreAdded(list: seq<LogicalProcessor>, p: LogicalProcessor)
    requires DifferentCores(list) && p.UniqueCoreID() !in CoresUsed(list)
    ensures DifferentCores(list + [p])
    ensures CoresUsed(list + [p]) == CoresUsed(list) + {p.UniqueCoreID()}
    ensures |CoresUsed(list + [p])| == |CoresUsed(list)| + 1
  {
    UsedBySum(list, p);
  }

  lemma UsedBySum(list: seq<LogicalProcessor>, p: LogicalProcessor)
    ensures CoresUsed(list + [p]) == CoresUsed(list) + {p.UniqueCoreID()}
  {
    assert (list + [p])[|list|] == p;
    forall i | 0 <= i < |list|
      ensures list[i].UniqueCoreID() in CoresUsed(list + [p])
    {
      assert (list + [p])[i] == list[i];
    }
  }

  /** The state of the first loop after i channels. */
  ghost predicate ChannelsServed(s0: Pool, now: Pool, list: seq<LogicalProcessor>, i: nat) {
    && |list| == i && DifferentCores(list) && |CoresUsed(list)| == i
    && AfterCores(s0, now, CoresUsed(list)) && i <= s0.freeCores
  }

  lemma ServeChannel(s0: Pool, now: Pool, list: seq<LogicalProcessor>, i: nat, p: LogicalProcessor, key: CoreId)
    requires ChannelsServed(s0, now, list, i) && now.freeCores > 0 && key in now.free && p.UniqueCoreID() == key
    ensures ChannelsServed(s0, TakeCore(now, key), list + [p], i + 1)
  {
    OneCoreMore(s0, now, CoresUsed(list), key);
    CoreAdded(list, p);
  }

  lemma NotTheSentinel(procs: Procs, p: LogicalProcessor)
    requires NoSentinel(procs) && p in procs
    ensures p.coreID != U32_MAX
  {
  }

  /** The first loop: one physical core per channel. */
  method AllocateChannels(manager: DynamicThreadManager, channels: nat) returns (success: bool, channelCores: seq<LogicalProcessor>)
    requires manager.Valid() && NoSentinel(manager.config.proc)
    modifies manager
    ensures manager.Valid()
    ensures success <==> channels <= old(manager.freeCoreCount)
    ensures success ==> ChannelsServed(old(manager.State()), manager.State(), channelCores, channels)
  {
    channelCores, success := [], true;
    ghost var s0 := manager.State();
    var i := 0;
    NothingTaken(s0);
    CoresRemain(manager.config.proc, s0);
    while i < channels && success
      invariant 0 <= i <= channels && manager.Valid()
      invariant success ==> ChannelsServed(s0, manager.State(), channelCores, i)
      invariant !success ==> s0.freeCores < channels
      decreases channels - i, success
    {
      success, channelCores := AllocateChannel(manager, channelCores, s0, i);
      i := i + 1;
    }
  }

  /** One round of the first loop. */
  method AllocateChannel(manager: DynamicThreadManager, list: seq<LogicalProcessor>, ghost s0: Pool, ghost i: nat)
      returns (success: bool, channelCores: seq<LogicalProcessor>)
    requires manager.Valid() && NoSentinel(manager.config.proc) && ChannelsServed(s0, manager.State(), list, i)
    modifies manager
    ensures manager.Valid()
    ensures success ==> ChannelsServed(s0, manager.State(), channelCores, i + 1)
    ensures success <==> i < s0.freeCores
  {
    ghost var now := manager.State();
    CoresRemain(manager.config.proc, now);
    var p, key := manager.AllocateCore();
    if now.freeCores > 0 {
      NotTheSentinel(manager.config.proc, p);
      ServeChannel(s0, now, list, i, p, key);
    }
    channelCores := list + [p];
    success := p.coreID != U32_MAX;
  }

  lemma CoresRemain(procs: Procs, s: Pool)
    requires Inv(procs, s)
    ensures s.freeCores >= 0 && s.freeThreads >= 0
  {
  }

  /** The threads taken so far, and what that leaves of the pool. */
  ghost predicate AfterThreads(procs: Procs, before: Pool, now: Pool, taken: seq<nat>) {
    && Distinct(taken) && Elements(taken) <= FreeSet(procs, before)
    && FreeSet(procs, now) == FreeSet(procs, before) - Elements(taken)
    && now.freeThreads == before.freeThreads - |taken|
  }

  lemma OneThreadMore(procs: Procs, before: Pool, now: Pool, taken: seq<nat>, key: CoreId)
    requires Inv(procs, now) && AfterThreads(procs, before, now, taken) && CanOpen(now, key) && ListOf(now, key) != []
    ensures AfterThreads(procs, before, TakeThread(now, key), taken + [TakenThread(now, key)])
  {
    TakeThreadKeeps(procs, now, key);
    var idx := TakenThread(now, key);
    AddElement(taken, idx);
    assert idx !in Elements(taken);
    StillDistinct(taken, idx);
  }

  lemma StillDistinct(s: seq<nat>, x: nat)
    requires Distinct(s) && x !in Elements(s)
    ensures Distinct(s + [x])
  {
    forall i | 0 <= i < |s|
      ensures s[i] != x
    {
      assert s[i] in Elements(s);
    }
  }

  lemma AddElement(s: seq<nat>, x: nat)
    ensures Elements(s + [x]) == Elements(s) + {x}
  {
  }

  /** The state of the second loop after i stress threads. */
  ghost predicate StressServed(procs: Procs, s0: Pool, now: Pool, list: seq<LogicalProcessor>, taken: seq<nat>, i: nat) {
    && |list| == |taken| == i <= s0.freeThreads
    && AfterThreads(procs, s0, now, taken) && AreThreads(procs, taken, list)
  }

  lemma ServeStress(procs: Procs, s0: Pool, now: Pool, list: seq<LogicalProcessor>, taken: seq<nat>, i: nat, key: CoreId)
    requires Inv(procs, now) && StressServed(procs, s0, now, list, taken, i) && now.freeThreads > 0
    requires CanOpen(now, key) && ListOf(now, key) != [] && TakenThread(now, key) < |procs|
    ensures StressServed(procs, s0, TakeThread(now, key), list + [procs[TakenThread(now, key)]], taken + [TakenThread(now, key)], i + 1)
  {
    OneThreadMore(procs, s0, now, taken, key);
    OneMoreOf(procs, taken, list, TakenThread(now, key));
    CoresRemain(procs, now);
    assert Elements(taken) <= FreeSet(procs, s0);
  }

  lemma OneMoreOf(procs: Procs, taken: seq<nat>, list: seq<LogicalProcessor>, g: nat)
    requires AreThreads(procs, taken, list) && g < |procs|
    ensures AreThreads(procs, taken + [g], list + [procs[g]])
  {
  }

  lemma NoStressYet(procs: Procs, s: Pool)
    requires s.freeThreads >= 0
    ensures StressServed(procs, s, s, [], [], 0)
  {
    assert Elements([]) == {};
  }

  /** The second loop: one thread per stress thread. */
  method AllocateStressThreads(manager: DynamicThreadManager, stress: nat)
      returns (success: bool, stressThreads: seq<LogicalProcessor>, ghost taken: seq<nat>)
    requires manager.Valid() && NoSentinel(manager.config.proc)
    modifies manager
    ensures manager.Valid()
    ensures success <==> stress <= old(manager.freeThreadCount)
    ensures success ==> StressServed(manager.config.proc, old(manager.State()), manager.State(), stressThreads, taken, stress)
  {
    stressThreads, success, taken := [], true, [];
    ghost var s0 := manager.State();
    CoresRemain(manager.config.proc, s0);
    NoStressYet(manager.config.proc, s0);
    var i := 0;
    while i < stress && success
      invariant 0 <= i <= stress && manager.Valid()
      invariant success ==> StressServed(manager.config.proc, s0, manager.State(), stressThreads, taken, i)
      invariant !success ==> s0.freeThreads < stress
      decreases stress - i, success
    {
      success, stressThreads, taken := AllocateStressThread(manager, stressThreads, taken, s0, i);
      i := i + 1;
    }
  }

  /** One round of the second loop. */
  method AllocateStressThread(manager: DynamicThreadManager, list: seq<LogicalProcessor>, ghost before: seq<nat>,
                              ghost s0: Pool, ghost i: nat)
      returns (success: bool, stressThreads: seq<LogicalProcessor>, ghost taken: seq<nat>)
    requires manager.Valid() && NoSentinel(manager.config.proc)
    requires StressServed(manager.config.proc, s0, manager.State(), list, before, i)
    modifies manager
    ensures manager.Valid()
    ensures success ==> StressServed(manager.config.proc, s0, manager.State(), stressThreads, taken, i + 1)
    ensures success <==> i < s0.freeThreads
  {
    ghost var now := manager.State();
    CoresRemain(manager.config.proc, now);
    var p, key := manager.AllocateThread();
    taken := before;
    if now.freeThreads > 0 {
      NotTheSentinel(manager.config.proc, p);
      ServeStress(manager.config.proc, s0, now, list, before, i, key);
      taken := before + [TakenThread(now, key)];
    }
    stressThreads := list + [p];
    success := p.coreID != U32_MAX;
  }

  /** list names the processors with the given indices. */
  ghost predicate AreThreads(procs: Procs, taken: seq<nat>, list: seq<LogicalProcessor>) {
    |list| == |taken| && forall k :: 0 <= k < |list| ==> taken[k] < |procs| && list[k] == procs[taken[k]]
  }

  /** No free thread is left on the core of p. */
  ghost predicate Retired(s: Pool, p: LogicalProcessor) {
    p.UniqueCoreID() !in s.free && p.UniqueCoreID() !in s.partial
  }

  /** Main thread, channels and stress threads are on different physical cores. */
  ghost predicate Isolated(main: LogicalProcessor, channelCores: seq<LogicalProcessor>, stressThreads: seq<LogicalProcessor>) {
    && DifferentCores(channelCores)
    && main.UniqueCoreID() !in CoresUsed(channelCores) && main.UniqueCoreID() !in CoresUsed(stressThreads)
    && CoresUsed(channelCores) !! CoresUsed(stressThreads)
  }

  lemma StressElsewhere(procs: Procs, s0: Pool, s1: Pool, s2: Pool, main: LogicalProcessor,
                        channelCores: seq<LogicalProcessor>, stressThreads: seq<LogicalProcessor>, taken: seq<nat>)
    requires Inv(procs, s0) && Retired(s0, main) && DifferentCores(channelCores)
    requires AfterCores(s0, s1, CoresUsed(channelCores)) && AfterThreads(procs, s1, s2, taken)
    requires AreThreads(procs, taken, stressThreads)
    ensures Isolated(main, channelCores, stressThreads)
  {
    forall k | 0 <= k < |stressThreads|
      ensures stressThreads[k].UniqueCoreID() in s1.free || stressThreads[k].UniqueCoreID() in s1.partial
    {
      assert taken[k] in Elements(taken);
      assert taken[k] in FreeSet(procs, s1);
    }
    assert main.UniqueCoreID() !in CoresUsed(channelCores);
  }

  /** All threads of the given cores. */
  ghost function ThreadsOfCores(procs: Procs, ids: set<CoreId>): (r: set<nat>) {
    set i: nat | i < |procs| && procs[i].UniqueCoreID() in ids
  }

  lemma ChannelsLeave(procs: Procs, s0: Pool, s1: Pool, used: set<CoreId>)
    requires Inv(procs, s0) && AfterCores(s0, s1, used)
    ensures FreeSet(procs, s1) == FreeSet(procs, s0) - ThreadsOfCores(procs, used)
  {
    forall i: nat | i < |procs|
      ensures IsFree(procs, s1, i) <==> IsFree(procs, s0, i) && procs[i].UniqueCoreID() !in used
    {
    }
  }

  /** The stress threads are different threads that were free, and exactly they and the channels' cores are gone. */
  ghost predicate HandedOut(procs: Procs, before: Pool, after: Pool, channelCores: seq<LogicalProcessor>,
                            stressThreads: seq<LogicalProcessor>, taken: seq<nat>) {
    && Distinct(taken) && AreThreads(procs, taken, stressThreads) && Elements(taken) <= FreeSet(procs, before)
    && FreeSet(procs, after) == FreeSet(procs, before) - ThreadsOfCores(procs, CoresUsed(channelCores)) - Elements(taken)
  }

  lemma AllHandedOut(procs: Procs, s0: Pool, s1: Pool, s2: Pool, channelCores: seq<LogicalProcessor>,
                     stressThreads: seq<LogicalProcessor>, taken: seq<nat>)
    requires Inv(procs, s0) && AfterCores(s0, s1, CoresUsed(channelCores))
    requires AfterThreads(procs, s1, s2, taken) && AreThreads(procs, taken, stressThreads)
    ensures HandedOut(procs, s0, s2, channelCores, stressThreads, taken)
  {
    ChannelsLeave(procs, s0, s1, CoresUsed(channelCores));
  }

  /**
   execute_benchmarks up to the first arm. The utilization assertion is a precondition, as
   it is in the source; with it every channel gets its core. Success then depends on the
   cores that were taken: it is certain exactly for the pools for which the check is sound.
   */
  method ExecuteBenchmarks(manager: DynamicThreadManager, arms: Arms, ghost main: LogicalProcessor)
      returns (success: bool, channelCores: seq<LogicalProcessor>, stressThreads: seq<LogicalProcessor>, ghost taken: seq<nat>)
    requires manager.Valid() && NoSentinel(manager.config.proc) && Retired(manager.State(), main)
    requires AnyArm(arms) && manager.freeCoreCount > 0
    requires Admitted(manager.freeThreadCount, manager.freeCoreCount, ChannelsToBenchmark(arms), StressThreadsToUse(arms))
    modifies manager
    ensures manager.Valid()
    ensures |channelCores| == ChannelsToBenchmark(arms) && DifferentCores(channelCores)
    ensures CoresUsed(channelCores) <= old(manager.free).Keys
    ensures success <==> Suffices(old(manager.State()), CoresUsed(channelCores), StressThreadsToUse(arms))
    ensures success ==> |stressThreads| == StressThreadsToUse(arms)
    ensures success ==> Isolated(main, channelCores, stressThreads)
    ensures success ==>
      HandedOut(manager.config.proc, old(manager.State()), manager.State(), channelCores, stressThreads, taken)
    ensures CheckIsSound(old(manager.State())) ==> success
  {
    var channelsToBenchmark, stressThreadsToUse := ChannelsToBenchmark(arms), StressThreadsToUse(arms);
    ghost var s0, procs := manager.State(), manager.config.proc;
    AdmittedChannelsFit(s0.freeThreads, s0.freeCores, channelsToBenchmark, stressThreadsToUse);
    stressThreads, taken := [], [];
    success, channelCores := AllocateChannels(manager, channelsToBenchmark);
    ghost var s1 := manager.State();
    if success {
      success, stressThreads, taken := AllocateStressThreads(manager, stressThreadsToUse);
      if success {
        AllHandedOut(procs, s0, s1, manager.State(), channelCores, stressThreads, taken);
        StressElsewhere(procs, s0, s1, manager.State(), main, channelCores, stressThreads, taken);
      }
    }
    assert CheckIsSound(s0) ==> Guaranteed(s0, channelsToBenchmark, stressThreadsToUse);
  }
}
