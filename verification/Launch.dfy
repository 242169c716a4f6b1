/**
 From the hardware description to the allocated benchmark: parse_cli's initialisation
 (benchmark/source/app_config.cpp) followed by execute_benchmarks.
 */
module Launch {
  import opened Machine
  import opened Processors
  import opened Topology
  import opened ThreadPool
  import opened ThreadManager
  import opened TopologyFacts
  import opened Bits
  import opened AdmissionCheck
  import opened Admission

  lemma RealProcessors(procs: Procs, cores: seq<seq<GroupMask>>)
    requires SingleGroup(cores) && |cores| < 0x1_0000_0000 && GoodTopology(procs, cores)
    ensures NoSentinel(procs)
  {
    forall i | 0 <= i < |procs|
      ensures procs[i].coreID != U32_MAX
    {
      assert procs[i] in procs && FromCore(procs[i], cores, |cores|);
    }
  }

  /** Taking the main thread's core leaves nothing of it, and all other cores untouched. */
  lemma MainIsRetired(procs: Procs, s: Pool, main: LogicalProcessor, key: CoreId)
    requires Inv(procs, s) && key in s.free && main.UniqueCoreID() == key
    ensures Retired(TakeCore(s, key), main)
    ensures TakeCore(s, key).partial == s.partial
    ensures forall t :: Uniform(s, t) ==> Uniform(TakeCore(s, key), t)
  {
  }

  /** Every physical core has t threads. */
  ghost predicate UniformCores(procs: Procs, t: int) {
    forall id :: id in CoreIds(procs) ==> |Threads(procs, id)| == t
  }

  lemma UniformStart(procs: Procs, cores: int, t: int, key: CoreId)
    requires UniformCores(procs, t) && key in CoreIds(procs) && cores == |CoreIds(procs)|
    ensures var s := TakeCore(InitialPool(procs, |procs|, cores), key);
      Uniform(s, t) && s.partial == map[] && s.freeCores == cores - 1 && s.freeThreads == t * (cores - 1)
  {
    var s := InitialPool(procs, |procs|, cores);
    InitialPoolIsValid(procs, |procs|, cores);
    FreeThreadsAreListed(procs, s);
    assert s.free.Keys == CoreIds(procs);
    UniformTotal(s, t, s.free.Keys);
    assert ListedTotal(s.partial, s.partial.Keys) == 0;
    OneLess(t, cores);
  }

  lemma OneLess(t: int, n: int)
    ensures t * n - t == t * (n - 1)
  {
  }

  /** Every core's mask has t bits. */
  ghost predicate EqualMasks(cores: seq<seq<GroupMask>>, t: nat)
    requires SingleGroup(cores)
  {
    forall c :: 0 <= c < |cores| ==> PopCount(cores[c][0].mask) == t
  }

  lemma EqualMasksGiveEqualCores(procs: Procs, cores: seq<seq<GroupMask>>, t: nat)
    requires SingleGroup(cores) && GoodTopology(procs, cores) && EqualMasks(cores, t)
    ensures UniformCores(procs, t)
  {
    forall id | id in CoreIds(procs)
      ensures |Threads(procs, id)| == t
    {
      var i :| 0 <= i < |procs| && procs[i].UniqueCoreID() == id;
      ThreadsAreMaskBits(procs, cores, i);
    }
  }

  /** The pool after the main thread has taken the core key, one of n. */
  ghost function AfterMain(procs: Procs, n: int, key: CoreId): Pool
    requires key in CoreIds(procs)
  {
    TakeCore(InitialPool(procs, |procs|, n), key)
  }

  /** The request passes the check on this pool. */
  ghost predicate Passes(s: Pool, arms: Arms) {
    s.freeCores > 0 && s.freeThreads >= 0
    && Admitted(s.freeThreads, s.freeCores, ChannelsToBenchmark(arms), StressThreadsToUse(arms))
  }

  /** The check, for C free cores of t threads each. */
  predicate PassesFor(t: nat, C: int, arms: Arms) {
    C > 0 && t * C >= 0 && Admitted(t * C, C, ChannelsToBenchmark(arms), StressThreadsToUse(arms))
  }

  /** With equal cores, passing the check is enough. */
  ghost predicate EqualCoresSuffice(cores: seq<seq<GroupMask>>, arms: Arms, success: bool)
    requires SingleGroup(cores)
  {
    forall t: nat :: EqualMasks(cores, t) && PassesFor(t, |cores| - 1, arms) ==> success
  }

  lemma EqualCoresPass(procs: Procs, cores: seq<seq<GroupMask>>, key: CoreId, t: nat, arms: Arms)
    requires SingleGroup(cores) && GoodTopology(procs, cores) && key in CoreIds(procs)
    requires Inv(procs, AfterMain(procs, |cores|, key))
    requires EqualMasks(cores, t) && PassesFor(t, |cores| - 1, arms)
    ensures Passes(AfterMain(procs, |cores|, key), arms) && CheckIsSound(AfterMain(procs, |cores|, key))
  {
    EqualMasksGiveEqualCores(procs, cores, t);
    UniformStart(procs, |cores|, t, key);
    AdmissionGuarantees(procs, AfterMain(procs, |cores|, key), t);
  }

  lemma EqualCoresAreEnough(procs: Procs, cores: seq<seq<GroupMask>>, key: CoreId, arms: Arms, success: bool)
    requires SingleGroup(cores) && GoodTopology(procs, cores) && key in CoreIds(procs)
    requires Inv(procs, AfterMain(procs, |cores|, key))
    requires Passes(AfterMain(procs, |cores|, key), arms) && CheckIsSound(AfterMain(procs, |cores|, key)) ==> success
    ensures EqualCoresSuffice(cores, arms, success)
  {
    forall t: nat | EqualMasks(cores, t) && PassesFor(t, |cores| - 1, arms)
      ensures success
    {
      EqualCoresPass(procs, cores, key, t, arms);
    }
  }

  /** The utilization assertion, and execute_benchmarks if it holds. */
  method CheckAndExecute(manager: DynamicThreadManager, arms: Arms, ghost main: LogicalProcessor)
      returns (success: bool, channelCores: seq<LogicalProcessor>, stressThreads: seq<LogicalProcessor>)
    requires manager.Valid() && NoSentinel(manager.config.proc) && Retired(manager.State(), main) && AnyArm(arms)
    modifies manager
    ensures var s := old(manager.State());
      success <==> Passes(s, arms) && Suffices(s, CoresUsed(channelCores), StressThreadsToUse(arms))
    ensures Passes(old(manager.State()), arms) && CheckIsSound(old(manager.State())) ==> success
    ensures success ==> Isolated(main, channelCores, stressThreads)
    ensures success ==> |channelCores| == ChannelsToBenchmark(arms) && |stressThreads| == StressThreadsToUse(arms)
  {
    success, channelCores, stressThreads := false, [], [];
    CoresRemain(manager.config.proc, manager.State());
    if manager.freeCoreCount > 0 {
      if Admitted(manager.freeThreadCount, manager.freeCoreCount, ChannelsToBenchmark(arms), StressThreadsToUse(arms)) {
        ghost var taken;
        success, channelCores, stressThreads, taken := ExecuteBenchmarks(manager, arms, main);
      }
    }
  }

  /**
   The whole preparation: read the topology, give the main thread a core, check admission,
   allocate. It succeeds exactly when the check passes and the cores that the channels got
   leave enough threads. On success the three roles share no physical core; when the check
   is sound for the pool, in particular with equal cores, passing it is enough.
   */
  method PrepareBenchmark(native: seq<Record>, access: Access, arms: Arms)
      returns (success: bool, main: LogicalProcessor, channelCores: seq<LogicalProcessor>, stressThreads: seq<LogicalProcessor>,
               ghost procs: Procs)
    requires WellFormed(native) && Regular(CoresOf(native), PackagesOf(native)) && CoresOf(native) != []
    requires TotalBits(CoresOf(native), |CoresOf(native)|) < 0x1_0000_0000
    requires AnyArm(arms)
    ensures GoodTopology(procs, CoresOf(native)) && main.UniqueCoreID() in CoreIds(procs)
    ensures var s := AfterMain(procs, |CoresOf(native)|, main.UniqueCoreID());
      success <==> Passes(s, arms) && Suffices(s, CoresUsed(channelCores), StressThreadsToUse(arms))
    ensures var s := AfterMain(procs, |CoresOf(native)|, main.UniqueCoreID());
      Passes(s, arms) && CheckIsSound(s) ==> success
    ensures success ==> Isolated(main, channelCores, stressThreads)
    ensures success ==> |channelCores| == ChannelsToBenchmark(arms) && |stressThreads| == StressThreadsToUse(arms)
    ensures EqualCoresSuffice(CoresOf(native), arms, success)
  {
    var manager := InitializeFromHardware(native, access);
    procs := manager.config.proc;
    RecordsWellFormed(native);
    RealProcessors(procs, CoresOf(native));
    ghost var s0 := manager.State();
    ghost var key;
    main, key := manager.AllocateCore();
    MainIsRetired(procs, s0, main, key);
    success, channelCores, stressThreads := CheckAndExecute(manager, arms, main);
    EqualCoresAreEnough(procs, CoresOf(native), key, arms, success);
  }
}
