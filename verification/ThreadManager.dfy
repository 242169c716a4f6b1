/**
 DynamicThreadManager (tailslayer/source/proc.cpp, tailslayer/include/tailslayer/proc.hpp):
 the class, proved against the bookkeeping functions, and runs of its operations.
 */
module ThreadManager {
  import opened Machine
  import opened Processors
  import opened ThreadPool
  import opened ThreadRelease
  import opened Topology
  import opened Wrappers

  /** What initialize builds for a processor table that claims the given counts. */
  ghost function InitialPool(procs: Procs, logicalCores: int, physicalCores: int): Pool {
    Pool(map id | id in CoreIds(procs) :: CoreEntry(|Threads(procs, id)|, Threads(procs, id)),
         map[],
         map id | id in CoreIds(procs) :: Threads(procs, id),
         logicalCores, physicalCores)
  }

  lemma InitialMaps(procs: Procs, logicalCores: int, physicalCores: int)
    ensures var s := InitialPool(procs, logicalCores, physicalCores);
      CoresComplete(procs, s) && FreeEntriesFull(procs, s) && PartialEntriesProper(procs, s) && s.free.Keys == CoreIds(procs)
  {
  }

  lemma InitialFreeSet(procs: Procs, logicalCores: int, physicalCores: int)
    ensures FreeSet(procs, InitialPool(procs, logicalCores, physicalCores)) == Below(|procs|)
  {
    forall i: nat | i < |procs|
      ensures IsFree(procs, InitialPool(procs, logicalCores, physicalCores), i)
    {
      ThreadsOfCore(procs, |procs|, procs[i].UniqueCoreID());
    }
  }

  /** The invariant holds after initialize exactly when the counts are right. */
  lemma InitialPoolIsValid(procs: Procs, logicalCores: int, physicalCores: int)
    ensures Inv(procs, InitialPool(procs, logicalCores, physicalCores))
      <==> logicalCores == |procs| && physicalCores == |CoreIds(procs)|
    ensures FreeSet(procs, InitialPool(procs, logicalCores, physicalCores)) == Below(|procs|)
  {
    InitialMaps(procs, logicalCores, physicalCores);
    InitialFreeSet(procs, logicalCores, physicalCores);
    BelowSize(|procs|);
    MapSize(InitialPool(procs, logicalCores, physicalCores).free);
  }

  lemma MapSize<K, V>(m: map<K, V>)
    ensures |m| == |m.Keys|
  {
  }

  lemma {:induction false} BelowSize(n: nat)
    ensures |Below(n)| == n
  {
    if n > 0 {
      BelowSize(n - 1);
    }
  }

  class DynamicThreadManager {
    const config: ProcessorConfigurationVector
    var cores: map<CoreId, CoreEntry>
    var partial: map<CoreId, seq<nat>>
    var free: map<CoreId, seq<nat>>
    var freeThreadCount: int
    var freeCoreCount: int

    ghost function State(): Pool
      reads this
    {
      Pool(cores, partial, free, freeThreadCount, freeCoreCount)
    }

    ghost predicate Valid()
      reads this, config
    {
      Numbered(config.proc) && Inv(config.proc, State())
    }

    /** No processors, no lists; the counters are not initialised. */
    ghost predicate Empty()
      reads this, config
    {
      config.proc == [] && cores == map[] && partial == map[] && free == map[]
    }

    constructor ()
      ensures Empty() && fresh(config)
    {
      config := new ProcessorConfigurationVector();
      cores, partial, free := map[], map[], map[];
      freeThreadCount, freeCoreCount := *, *;
    }

    /** initialize with an existing configuration, which may be the manager's own. */
    method Initialize(existing: ProcessorConfigurationVector) returns (ok: bool)
      requires config.proc == [] ==> Empty()
      modifies this, config
      ensures ok <==> old(config.proc) == []
      ensures !ok ==> State() == old(State()) && unchanged(config)
      ensures ok ==> config.proc == old(existing.proc) && config.threadCount == old(existing.threadCount)
      ensures ok ==> config.physicalCoreCount == old(existing.physicalCoreCount)
      ensures ok ==> config.corePackageCount == old(existing.corePackageCount)
      ensures ok ==> State() == InitialPool(config.proc, old(existing.LogicalCoreCount()), old(existing.PhysicalCoreCount()))
    {
      if config.proc != [] {
        return false;
      }
      config.Copy(existing);
      GroupThreads();
      FillLists();
      freeThreadCount := config.LogicalCoreCount();
      freeCoreCount := config.PhysicalCoreCount();
      SameInitialPool(config.proc, cores, free);
      return true;
    }

    /**
     initialize without arguments reads the hardware into the manager's own table and then
     passes that table to the overload above, which refuses unless the table is empty, that
     is unless no core record has a thread. It never yields a usable manager: either
     nothing is listed, or an empty pool claims UINT32_MAX cores and threads.
     */
    method InitializeDefault(native: Option<seq<Record>>, access: Option<Access>) returns (ok: bool)
      requires config.proc == [] ==> Empty()
      requires native.Some? ==> WellFormed(native.value)
      modifies this, config
      ensures ok <==> old(config.proc) == [] && native.Some? && access.Some? && NoThreads(native.value)
      ensures !ok ==> State() == old(State())
      ensures ok ==> config.proc == [] && State() == InitialPool([], U32_MAX, U32_MAX)
      ensures old(config.proc) == [] && native.Some? && access.Some? ==> !Valid()
      ensures old(config.proc) == [] && native.Some? && access.Some? ==> Describes(config, native.value, access.value)
    {
      if config.proc != [] {
        return false;
      }
      var good := config.Initialize(native, access);
      if !good {
        return false;
      }
      TableIsEmpty(config, native.value, access.value);
      ok := Initialize(config);
      if ok {
        InitialPoolIsValid([], U32_MAX, U32_MAX);
      } else {
        assert config.proc[0].UniqueCoreID() in CoreIds(config.proc);
      }
    }

    /** The first loop of initialize: every processor is listed under its core. */
    method GroupThreads()
      requires cores == map[]
      modifies this`cores
      ensures cores.Keys == CoreIds(config.proc)
      ensures forall id :: id in cores ==> cores[id].threads == Threads(config.proc, id)
    {
      var i := 0;
      while i < |config.proc|
        invariant 0 <= i <= |config.proc| && Grouped(config.proc, i, cores)
      {
        GroupOne(config.proc, i, cores);
        cores := AddThread(cores, config.proc[i].UniqueCoreID(), i);
        i := i + 1;
      }
      AllGrouped(config.proc, cores);
    }

    /** The second loop of initialize: thread counts, and every core is free. */
    method FillLists()
      requires cores.Keys == CoreIds(config.proc) && free == map[]
      requires forall id :: id in cores ==> cores[id].threads == Threads(config.proc, id)
      modifies this`cores, this`free
      ensures cores.Keys == free.Keys == CoreIds(config.proc)
      ensures forall id :: id in cores ==> cores[id] == CoreEntry(|Threads(config.proc, id)|, Threads(config.proc, id))
      ensures forall id :: id in free ==> free[id] == Threads(config.proc, id)
    {
      var keys := cores.Keys;
      while keys != {}
        invariant keys <= cores.Keys == CoreIds(config.proc)
        invariant forall id :: id in cores ==> cores[id].threads == Threads(config.proc, id)
        invariant forall id :: id in cores && id !in keys ==> cores[id].threadCount == |Threads(config.proc, id)|
        invariant free.Keys == cores.Keys - keys
        invariant forall id :: id in free ==> free[id] == Threads(config.proc, id)
        decreases keys
      {
        var id :| id in keys;
        cores := cores[id := cores[id].(threadCount := |cores[id].threads|)];
        free := free[id := cores[id].threads];
        keys := keys - {id};
      }
    }

    method Destroy()
      modifies this, config
      ensures Empty() && freeThreadCount == 0 && freeCoreCount == 0
    {
      freeCoreCount, freeThreadCount := 0, 0;
      free, partial, cores := map[], map[], map[];
      config.Destroy();
    }

    /** allocateProcessor: appends the threads of some free core to the caller's vector. */
    method AllocateProcessor(vec: seq<LogicalProcessor>) returns (ok: bool, out: seq<LogicalProcessor>, ghost key: CoreId)
      requires Valid()
      modifies this
      ensures Valid()
      ensures ok <==> old(freeCoreCount) > 0
      ensures !ok ==> State() == old(State()) && out == vec
      ensures ok ==> key in old(free) && State() == TakeCore(old(State()), key)
      ensures ok ==> AllBelow(Threads(config.proc, key), |config.proc|) && out == vec + Selected(config.proc, Threads(config.proc, key))
    {
      key, out := 0, vec;
      CountersAreHonest(config.proc, State());
      if freeCoreCount == 0 {
        return false, out, key;
      }
      var first :| first in free;
      key := first;
      TakeCoreKeeps(config.proc, State(), first);
      InRange(config.proc, first);
      out := HandOutCore(vec, first);
      return true, out, key;
    }

    /** The loop of allocateProcessor over the chosen core's threads, and its removal. */
    method HandOutCore(vec: seq<LogicalProcessor>, key: CoreId) returns (out: seq<LogicalProcessor>)
      requires key in free && free[key] == Threads(config.proc, key) && AllBelow(Threads(config.proc, key), |config.proc|)
      modifies this`free, this`freeThreadCount, this`freeCoreCount
      ensures State() == TakeCore(old(State()), key)
      ensures out == vec + Selected(config.proc, Threads(config.proc, key))
    {
      out := vec;
      var val := free[key];
      for j := 0 to |val|
        invariant out == vec + Selected(config.proc, val[..j])
        invariant freeThreadCount == old(freeThreadCount) - j && free == old(free) && freeCoreCount == old(freeCoreCount)
      {
        assert val[..j + 1] == val[..j] + [val[j]];
        out := out + [config.proc[val[j]]];
        freeThreadCount := freeThreadCount - 1;
      }
      assert val[..|val|] == val;
      free := free - {key};
      freeCoreCount := freeCoreCount - 1;
    }

    /** The single-result allocateProcessor: the core's first thread stands for the core. */
    method AllocateCore() returns (p: LogicalProcessor, ghost key: CoreId)
      requires Valid()
      modifies this
      ensures Valid()
      ensures old(freeCoreCount) == 0 ==> p == NO_PROCESSOR && State() == old(State())
      ensures old(freeCoreCount) > 0 ==> key in old(free) && State() == TakeCore(old(State()), key)
      ensures old(freeCoreCount) > 0 ==> IsFirstOf(config.proc, key, p)
    {
      var ok, result;
      ok, result, key := AllocateProcessor([]);
      CountersAreHonest(config.proc, old(State()));
      if ok {
        CoreHasThreads(config.proc, old(State()), key);
        FirstSelected(config.proc, key, result);
        p := result[0];
      } else {
        p := NO_PROCESSOR;
      }
    }

    /** freeProcessor: all it does, also for cores it should not be called on. */
    method FreeProcessor(coreID: u32, packageID: u16)
      requires Valid()
      modifies this
      ensures var id := LogicalProcessor(U32_MAX, coreID, packageID, true, GroupMask(0, 0)).UniqueCoreID();
        State() == ThreadPool.FreeProcessor(old(State()), id)
    {
      var id := LogicalProcessor(U32_MAX, coreID, packageID, true, GroupMask(0, 0)).UniqueCoreID();
      if |free| == |cores| || id in free {
        return;
      }
      ReturnCore(id);
    }

    /** The part of freeProcessor after the two tests. */
    method ReturnCore(id: CoreId)
      modifies this
      ensures State() == PutCore(old(State()), id)
    {
      if id in partial {
        partial := partial - {id};
      }
      if id !in cores {
        cores := cores[id := CoreEntry(0, [])];
      }
      free := free[id := cores[id].threads];
      freeThreadCount := freeThreadCount + cores[id].threadCount;
      freeCoreCount := freeCoreCount + 1;
      assert old(partial) - {id} == partial;
    }

    /** allocateThread */
    method AllocateThread() returns (p: LogicalProcessor, ghost key: CoreId)
      requires Valid()
      modifies this
      ensures Valid()
      ensures old(freeThreadCount) == 0 ==> p == NO_PROCESSOR && State() == old(State())
      ensures old(freeThreadCount) > 0 ==> CanOpen(old(State()), key) && ListOf(old(State()), key) != []
      ensures old(freeThreadCount) > 0 ==> State() == TakeThread(old(State()), key)
      ensures old(freeThreadCount) > 0 ==> TakenThread(old(State()), key) < |config.proc|
      ensures old(freeThreadCount) > 0 ==> p == config.proc[TakenThread(old(State()), key)]
    {
      key := 0;
      if freeThreadCount == 0 {
        return NO_PROCESSOR, key;
      }
      CountersAreHonest(config.proc, State());
      ListsInRange(config.proc, State());
      var idx;
      idx, key := TakeAnyThread();
      TakeThreadKeeps(config.proc, old(State()), key);
      TakenThreadOfCore(config.proc, old(State()), key);
      return config.proc[idx], key;
    }

    /** The body of allocateThread when there is a free thread. */
    method TakeAnyThread() returns (idx: nat, ghost key: CoreId)
      requires exists k :: CanOpen(State(), k)
      requires ListsBelow(free, |config.proc|) && ListsBelow(partial, |config.proc|)
      modifies this`free, this`partial, this`freeThreadCount, this`freeCoreCount
      ensures CanOpen(old(State()), key) && ListOf(old(State()), key) != []
      ensures idx == TakenThread(old(State()), key) && State() == TakeThread(old(State()), key)
    {
      if partial == map[] {
        assert free != map[] by {
          var c :| CanOpen(State(), c);
          assert c in free;
        }
        var first :| first in free;
        OpenCore(first);
        assert first in partial;
      }
      assert partial.Keys != {};
      var k :| k in partial;
      key := k;
      idx := PopThread(k);
      TakeThreadMaps(old(State()), key, partial);
    }

    /** allocateThread's first step, when no core is partially free. */
    method OpenCore(first: CoreId)
      requires first in free
      modifies this`free, this`partial, this`freeCoreCount
      ensures partial == old(partial)[first := old(free)[first]]
      ensures free == old(free) - {first} && freeCoreCount == old(freeCoreCount) - 1
    {
      partial := partial[first := free[first]];
      free := free - {first};
      freeCoreCount := freeCoreCount - 1;
    }

    /** allocateThread's second step: the last thread of a partially free core. */
    method PopThread(k: CoreId) returns (idx: nat)
      requires k in partial && partial[k] != []
      modifies this`partial, this`freeThreadCount
      ensures var list := old(partial)[k];
        idx == list[|list| - 1]
        && partial == if |list| == 1 then old(partial)[k := list[..|list| - 1]] - {k} else old(partial)[k := list[..|list| - 1]]
      ensures freeThreadCount == old(freeThreadCount) - 1
    {
      idx := partial[k][|partial[k]| - 1];
      partial := partial[k := partial[k][..|partial[k]| - 1]];
      if |partial[k]| == 0 {
        partial := partial - {k};
      }
      freeThreadCount := freeThreadCount - 1;
    }

    /** freeThread: all it does, also for processors that are not the manager's. */
    method FreeThread(id: LogicalProcessor)
      requires Valid()
      modifies this
      ensures State() == ThreadPool.FreeThread(config.proc, old(State()), id)
    {
      var listed := SearchLists(id.globalID);
      if listed {
        return;
      }
      ReturnThread(id.UniqueCoreID(), id.globalID);
    }

    /** The part of freeThread after the search. */
    method ReturnThread(core: CoreId, globalID: u32)
      modifies this
      ensures State() == PutThread(old(State()), core, globalID)
    {
      partial := partial[core := (if core in partial then partial[core] else []) + [globalID]];
      freeThreadCount := freeThreadCount + 1;
      if core !in cores {
        cores := cores[core := CoreEntry(0, [])];
      }
      if |partial[core]| == cores[core].threadCount {
        partial := partial - {core};
        free := free[core := cores[core].threads];
        freeCoreCount := freeCoreCount + 1;
        assert partial == old(partial) - {core};
      }
    }

    /** The two search loops of freeThread. */
    method SearchLists(globalID: u32) returns (found: bool)
      requires Valid()
      ensures found <==> Listed(config.proc, State(), globalID)
    {
      ListsInRange(config.proc, State());
      found := SearchMap(partial, globalID);
      if !found {
        found := SearchMap(free, globalID);
      }
    }

    /** One of the loops; the map is visited in any order. */
    method SearchMap(lists: map<CoreId, seq<nat>>, globalID: u32) returns (found: bool)
      requires ListsBelow(lists, |config.proc|)
      ensures found <==> exists id :: id in lists && Names(config.proc, lists[id], globalID)
    {
      var keys := lists.Keys;
      while keys != {}
        invariant keys <= lists.Keys
        invariant forall id :: id in lists && id !in keys ==> !Names(config.proc, lists[id], globalID)
        decreases keys
      {
        var id :| id in keys;
        var hit := SearchList(lists[id], globalID);
        if hit {
          return true;
        }
        keys := keys - {id};
      }
      return false;
    }

    method SearchList(list: seq<nat>, globalID: u32) returns (found: bool)
      requires AllBelow(list, |config.proc|)
      ensures found <==> Names(config.proc, list, globalID)
    {
      for k := 0 to |list|
        invariant forall j :: 0 <= j < k ==> config.proc[list[j]].globalID != globalID
      {
        if config.proc[list[k]].globalID == globalID {
          return true;
        }
      }
      return false;
    }
  }

  /** p is the first processor of core id in the table. */
  ghost predicate IsFirstOf(procs: Procs, id: CoreId, p: LogicalProcessor) {
    exists i :: 0 <= i < |procs| && procs[i] == p && p.UniqueCoreID() == id
      && forall j :: 0 <= j < i ==> procs[j].UniqueCoreID() != id
  }

  lemma FirstThread(procs: Procs, id: CoreId)
    requires Threads(procs, id) != []
    ensures Threads(procs, id)[0] < |procs| && IsFirstOf(procs, id, procs[Threads(procs, id)[0]])
  {
    var list := Threads(procs, id);
    ThreadsOfCore(procs, |procs|, id);
    ThreadsAscend(procs, |procs|, id);
    HeadIsLeast(list);
    assert list[0] in list;
  }

  lemma FirstSelected(procs: Procs, id: CoreId, out: seq<LogicalProcessor>)
    requires Threads(procs, id) != [] && AllBelow(Threads(procs, id), |procs|) && out == Selected(procs, Threads(procs, id))
    ensures IsFirstOf(procs, id, out[0])
  {
    FirstThread(procs, id);
  }

  ghost predicate AllBelow(list: seq<nat>, n: nat) {
    forall k :: 0 <= k < |list| ==> list[k] < n
  }

  lemma InRange(procs: Procs, id: CoreId)
    ensures AllBelow(Threads(procs, id), |procs|)
  {
    ThreadsOfCore(procs, |procs|, id);
    forall k | 0 <= k < |Threads(procs, id)|
      ensures Threads(procs, id)[k] < |procs|
    {
      assert Threads(procs, id)[k] in Threads(procs, id);
    }
  }

  ghost predicate ListsBelow(lists: map<CoreId, seq<nat>>, n: nat) {
    forall id :: id in lists ==> AllBelow(lists[id], n) && lists[id] != []
  }

  lemma ListsInRange(procs: Procs, s: Pool)
    requires Inv(procs, s)
    ensures ListsBelow(s.free, |procs|) && ListsBelow(s.partial, |procs|)
  {
    forall id | id in s.free
      ensures AllBelow(s.free[id], |procs|) && s.free[id] != []
    {
      InRange(procs, id);
      CoreHasThreads(procs, s, id);
    }
    forall id | id in s.partial
      ensures AllBelow(s.partial[id], |procs|) && s.partial[id] != []
    {
      assert ProperPart(procs, id, s.partial[id]);
      PartBelow(procs, id, s.partial[id]);
    }
  }

  lemma PartBelow(procs: Procs, id: CoreId, list: seq<nat>)
    requires forall i :: i in list ==> i in Threads(procs, id)
    ensures AllBelow(list, |procs|)
  {
    ThreadsOfCore(procs, |procs|, id);
    forall k | 0 <= k < |list|
      ensures list[k] < |procs|
    {
      assert list[k] in list;
    }
  }

  /** The processors with the given indices. */
  function Selected(procs: Procs, list: seq<nat>): (r: seq<LogicalProcessor>)
    requires AllBelow(list, |procs|)
    ensures |r| == |list| && forall k :: 0 <= k < |list| ==> r[k] == procs[list[k]]
  {
    if list == [] then [] else Selected(procs, list[..|list| - 1]) + [procs[list[|list| - 1]]]
  }

  lemma SameInitialPool(procs: Procs, cores: map<CoreId, CoreEntry>, free: map<CoreId, seq<nat>>)
    requires cores.Keys == free.Keys == CoreIds(procs)
    requires forall id :: id in cores ==> cores[id] == CoreEntry(|Threads(procs, id)|, Threads(procs, id))
    requires forall id :: id in free ==> free[id] == Threads(procs, id)
    ensures cores == InitialPool(procs, 0, 0).cores && free == InitialPool(procs, 0, 0).free
  {
  }

  lemma TakeThreadMaps(s: Pool, key: CoreId, partial: map<CoreId, seq<nat>>)
    requires CanOpen(s, key) && ListOf(s, key) != []
    requires var list := ListOf(s, key);
      var moved := s.partial[key := list][key := list[..|list| - 1]];
      partial == if |list| == 1 then moved - {key} else moved
    ensures partial == TakeThread(s, key).partial
  {
  }

  // The grouping loop of initialize.

  /** After n processors, the table lists each core's threads; no count is set yet. */
  ghost predicate Grouped(procs: Procs, n: nat, cores: map<CoreId, CoreEntry>)
    requires n <= |procs|
  {
    && (forall id :: id in cores <==> ThreadsOf(procs, n, id) != [])
    && (forall id :: id in cores ==> cores[id].threads == ThreadsOf(procs, n, id))
  }

  /** operator[] and push_back on the core table. */
  function AddThread(cores: map<CoreId, CoreEntry>, id: CoreId, i: nat): map<CoreId, CoreEntry> {
    var entry := if id in cores then cores[id] else CoreEntry(0, []);
    cores[id := entry.(threads := entry.threads + [i])]
  }

  lemma GroupOne(procs: Procs, n: nat, cores: map<CoreId, CoreEntry>)
    requires n < |procs| && Grouped(procs, n, cores)
    ensures Grouped(procs, n + 1, AddThread(cores, procs[n].UniqueCoreID(), n))
  {
  }

  lemma AllGrouped(procs: Procs, cores: map<CoreId, CoreEntry>)
    requires Grouped(procs, |procs|, cores)
    ensures cores.Keys == CoreIds(procs)
  {
    forall id
      ensures id in cores <==> id in CoreIds(procs)
    {
      ThreadsOfCore(procs, |procs|, id);
      if id in cores {
        assert Threads(procs, id)[0] in Threads(procs, id);
      }
      if id in CoreIds(procs) {
        var i :| 0 <= i < |procs| && procs[i].UniqueCoreID() == id;
        assert i in Threads(procs, id);
      }
    }
  }

  // Runs.

  /** The pool together with the threads its clients hold. */
  datatype Ledger = Ledger(pool: Pool, held: set<nat>)

  /** Held and free threads are all threads, each on one side only. */
  ghost predicate Balanced(procs: Procs, a: Ledger) {
    Inv(procs, a.pool) && a.held == Below(|procs|) - FreeSet(procs, a.pool)
  }

  ghost predicate CoreTaken(a: Ledger, b: Ledger, key: CoreId) {
    key in a.pool.free && b == Ledger(TakeCore(a.pool, key), a.held + Elements(a.pool.free[key]))
  }

  ghost predicate ThreadTaken(a: Ledger, b: Ledger, key: CoreId) {
    CanOpen(a.pool, key) && ListOf(a.pool, key) != []
    && b == Ledger(TakeThread(a.pool, key), a.held + {TakenThread(a.pool, key)})
  }

  /** A client gives back a thread that it holds. */
  ghost predicate ThreadReturned(procs: Procs, a: Ledger, b: Ledger, i: nat) {
    i in a.held && i < |procs| && b == Ledger(ThreadPool.FreeThread(procs, a.pool, procs[i]), a.held - {i})
  }

  /** A client gives back a core all of whose threads it holds. */
  ghost predicate CoreReturned(procs: Procs, a: Ledger, b: Ledger, id: CoreId) {
    id in a.pool.cores && Elements(Threads(procs, id)) <= a.held
    && b == Ledger(ThreadPool.FreeProcessor(a.pool, id), a.held - Elements(Threads(procs, id)))
  }

  /** One operation; one that fails, or frees what is free already, changes nothing. */
  ghost predicate Step(procs: Procs, a: Ledger, b: Ledger) {
    || b == a
    || (exists key :: CoreTaken(a, b, key))
    || (exists key :: ThreadTaken(a, b, key))
    || (exists i :: ThreadReturned(procs, a, b, i))
    || (exists id :: CoreReturned(procs, a, b, id))
  }

  /** Moving free elements to the other side of the ledger. */
  lemma Moved(all: set<nat>, before: set<nat>, after: set<nat>, taken: set<nat>, held: set<nat>)
    requires taken <= before <= all && after == before - taken && held == all - before
    ensures held + taken == all - after && held !! taken && (held + taken) - held == taken
  {
  }

  lemma FreeBelow(procs: Procs, s: Pool)
    ensures FreeSet(procs, s) <= Below(|procs|)
  {
  }

  lemma CoreTakenKeeps(procs: Procs, a: Ledger, b: Ledger, key: CoreId)
    requires Balanced(procs, a) && CoreTaken(a, b, key)
    ensures Balanced(procs, b) && a.held !! (b.held - a.held) && b.held - a.held == Elements(Threads(procs, key))
  {
    TakeCoreKeeps(procs, a.pool, key);
    FreeBelow(procs, a.pool);
    assert a.pool.free[key] == Threads(procs, key);
    Moved(Below(|procs|), FreeSet(procs, a.pool), FreeSet(procs, b.pool), Elements(Threads(procs, key)), a.held);
  }

  lemma ThreadTakenKeeps(procs: Procs, a: Ledger, b: Ledger, key: CoreId)
    requires Balanced(procs, a) && ThreadTaken(a, b, key)
    ensures Balanced(procs, b) && TakenThread(a.pool, key) !in a.held
  {
    TakeThreadKeeps(procs, a.pool, key);
    FreeBelow(procs, a.pool);
    Moved(Below(|procs|), FreeSet(procs, a.pool), FreeSet(procs, b.pool), {TakenThread(a.pool, key)}, a.held);
  }

  lemma ThreadReturnedKeeps(procs: Procs, a: Ledger, b: Ledger, i: nat)
    requires Balanced(procs, a) && Numbered(procs) && ThreadReturned(procs, a, b, i)
    ensures Balanced(procs, b)
  {
    FreeThreadIsRightFor(procs, a.pool, procs[i]);
  }

  lemma PartialCoreHasFree(procs: Procs, s: Pool, id: CoreId)
    requires Inv(procs, s) && id in s.partial
    ensures exists g :: g in FreeSet(procs, s) && g in Elements(Threads(procs, id))
  {
    assert ProperPart(procs, id, s.partial[id]);
    var g := s.partial[id][0];
    ListedThread(procs, s, id, g);
    assert g in Elements(Threads(procs, id));
  }

  lemma CoreReturnedKeeps(procs: Procs, a: Ledger, b: Ledger, id: CoreId)
    requires Balanced(procs, a) && CoreReturned(procs, a, b, id)
    ensures Balanced(procs, b)
  {
    if id in a.pool.partial {
      PartialCoreHasFree(procs, a.pool, id);
    }
    FreeProcessorIsRightFor(procs, a.pool, id);
  }

  /** Every operation keeps the invariant and the balance of held and free threads. */
  lemma StepKeeps(procs: Procs, a: Ledger, b: Ledger)
    requires Balanced(procs, a) && Numbered(procs) && Step(procs, a, b)
    ensures Balanced(procs, b)
  {
    if b != a {
      if key :| CoreTaken(a, b, key) {
        CoreTakenKeeps(procs, a, b, key);
      } else if key :| ThreadTaken(a, b, key) {
        ThreadTakenKeeps(procs, a, b, key);
      } else if i :| ThreadReturned(procs, a, b, i) {
        ThreadReturnedKeeps(procs, a, b, i);
      } else {
        var id :| CoreReturned(procs, a, b, id);
        CoreReturnedKeeps(procs, a, b, id);
      }
    }
  }

  ghost predicate IsRun(procs: Procs, run: seq<Ledger>) {
    forall i :: 0 < i < |run| ==> Step(procs, run[i - 1], run[i])
  }

  lemma BalancedSides(procs: Procs, a: Ledger)
    requires Balanced(procs, a)
    ensures a.held !! FreeSet(procs, a.pool) && a.held + FreeSet(procs, a.pool) == Below(|procs|)
  {
    FreeBelow(procs, a.pool);
  }

  /** In every state of every run no thread is lost and none is both held and free. */
  lemma {:induction false} RunsKeepBalance(procs: Procs, run: seq<Ledger>, n: nat)
    requires n < |run| && IsRun(procs, run) && Numbered(procs) && Balanced(procs, run[0])
    ensures Balanced(procs, run[n])
    ensures run[n].held !! FreeSet(procs, run[n].pool) && run[n].held + FreeSet(procs, run[n].pool) == Below(|procs|)
  {
    if n > 0 {
      RunsKeepBalance(procs, run, n - 1);
      StepKeeps(procs, run[n - 1], run[n]);
    }
    BalancedSides(procs, run[n]);
  }

  // Runs from a fresh manager.

  ghost function Fresh(procs: Procs): Ledger {
    Ledger(InitialPool(procs, |procs|, |CoreIds(procs)|), {})
  }

  lemma FreshIsBalanced(procs: Procs)
    ensures Balanced(procs, Fresh(procs))
  {
    InitialPoolIsValid(procs, |procs|, |CoreIds(procs)|);
  }

  /** From a freshly initialised manager with right counts, every run keeps every thread on exactly one side. */
  lemma FreshRunsKeepBalance(procs: Procs, run: seq<Ledger>, n: nat)
    requires n < |run| && IsRun(procs, run) && Numbered(procs) && run[0] == Fresh(procs)
    ensures Inv(procs, run[n].pool)
    ensures run[n].held !! FreeSet(procs, run[n].pool) && run[n].held + FreeSet(procs, run[n].pool) == Below(|procs|)
  {
    FreshIsBalanced(procs);
    RunsKeepBalance(procs, run, n);
  }

  /** A run of allocations only. */
  ghost predicate IsAllocation(a: Ledger, b: Ledger) {
    || b == a
    || (exists key :: CoreTaken(a, b, key))
    || (exists key :: ThreadTaken(a, b, key))
  }

  ghost predicate OnlyAllocates(run: seq<Ledger>) {
    forall i :: 0 < i < |run| ==> IsAllocation(run[i - 1], run[i])
  }

  lemma AllocationPacks(procs: Procs, a: Ledger, b: Ledger)
    requires Balanced(procs, a) && IsAllocation(a, b) && |a.pool.partial| <= 1
    ensures Balanced(procs, b) && |b.pool.partial| <= 1
  {
    if b != a {
      if key :| CoreTaken(a, b, key) {
        CoreTakenKeeps(procs, a, b, key);
      } else {
        var key :| ThreadTaken(a, b, key);
        ThreadTakenKeeps(procs, a, b, key);
        TakeThreadPacks(procs, a.pool, key);
      }
    }
  }

  /** Allocating cores and threads in any order from a fresh manager, at most one core is ever partially free. */
  lemma {:induction false} AllocationsPack(procs: Procs, run: seq<Ledger>, n: nat)
    requires n < |run| && OnlyAllocates(run) && run[0] == Fresh(procs)
    ensures Balanced(procs, run[n]) && |run[n].pool.partial| <= 1
  {
    if n == 0 {
      FreshIsBalanced(procs);
    } else {
      AllocationsPack(procs, run, n - 1);
      AllocationPacks(procs, run[n - 1], run[n]);
    }
  }
}
