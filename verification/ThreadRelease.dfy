/**
 Freeing threads and cores: when the invariant survives it, and that it undoes allocation
 (tailslayer/source/proc.cpp).
 */
module ThreadRelease {
  import opened Processors
  import opened ThreadPool

  /** p carries the global id and the core of one of the manager's processors. */
  predicate Known(procs: Procs, p: LogicalProcessor) {
    p.globalID < |procs| && procs[p.globalID].UniqueCoreID() == p.UniqueCoreID()
  }

  lemma ListedIsFree(procs: Procs, s: Pool, g: nat)
    requires Inv(procs, s) && Numbered(procs)
    ensures Listed(procs, s, g) <==> g in FreeSet(procs, s)
  {
    forall id | id in s.cores
      ensures Names(procs, FreeList(s, id), g) <==> g in FreeList(s, id)
    {
      ListNames(procs, s, id, g);
    }
    if g in FreeSet(procs, s) {
      var id := procs[g].UniqueCoreID();
      assert id in s.cores && Names(procs, FreeList(s, id), g);
    }
    if id :| id in s.partial && Names(procs, s.partial[id], g) {
      assert FreeList(s, id) == s.partial[id];
      ListedThread(procs, s, id, g);
    }
    if id :| id in s.free && Names(procs, s.free[id], g) {
      ListedThread(procs, s, id, g);
    }
  }

  lemma ListNames(procs: Procs, s: Pool, id: CoreId, g: nat)
    requires Inv(procs, s) && Numbered(procs)
    ensures Names(procs, FreeList(s, id), g) <==> g in FreeList(s, id)
  {
    ThreadsOfCore(procs, |procs|, id);
    var list := FreeList(s, id);
    if g in list {
      var k :| 0 <= k < |list| && list[k] == g;
      assert g in Threads(procs, id);
    }
  }

  lemma ListedThread(procs: Procs, s: Pool, id: CoreId, g: nat)
    requires Inv(procs, s) && g in FreeList(s, id)
    ensures g in FreeSet(procs, s)
  {
    ThreadsOfCore(procs, |procs|, id);
    assert g in Threads(procs, id);
  }

  // freeThread

  /** Distinct threads of a core that are as many as the core has are all of them. */
  lemma AllOfThem(list: seq<nat>, all: seq<nat>)
    requires Distinct(list) && Distinct(all) && |list| == |all| && forall i :: i in list ==> i in all
    ensures Elements(list) == Elements(all)
  {
    DistinctSize(list);
    DistinctSize(all);
    SameSizeSubset(Elements(list), Elements(all));
  }

  lemma SameSizeSubset<T>(a: set<T>, b: set<T>)
    requires a <= b && |a| == |b|
    ensures a == b
  {
    assert b == a + (b - a);
  }

  lemma SmallerPart(list: seq<nat>, all: seq<nat>)
    requires Distinct(list) && Distinct(all) && forall i :: i in list ==> i in all
    ensures |list| <= |all|
  {
    DistinctSize(list);
    DistinctSize(all);
    SubsetSize(Elements(list), Elements(all));
  }

  /** The list of the core after a thread came back, before the core is possibly completed. */
  function Extended(s: Pool, id: CoreId, g: nat): seq<nat> {
    (if id in s.partial then s.partial[id] else []) + [g]
  }

  lemma ExtendedList(procs: Procs, s: Pool, id: CoreId, g: nat)
    requires Inv(procs, s) && g < |procs| && procs[g].UniqueCoreID() == id && g !in FreeSet(procs, s)
    ensures id in s.cores && id !in s.free
    ensures Distinct(Extended(s, id, g)) && forall i :: i in Extended(s, id, g) ==> i in Threads(procs, id)
    ensures |Extended(s, id, g)| <= |Threads(procs, id)|
  {
    ThreadsOfCore(procs, |procs|, id);
    SmallerPart(Extended(s, id, g), Threads(procs, id));
  }

  lemma PutThreadLists(procs: Procs, s: Pool, id: CoreId, g: nat, other: CoreId)
    requires Inv(procs, s) && g < |procs| && procs[g].UniqueCoreID() == id && g !in FreeSet(procs, s)
    ensures other != id ==> FreeList(PutThread(s, id, g), other) == FreeList(s, other)
    ensures Elements(FreeList(PutThread(s, id, g), id)) == Elements(FreeList(s, id)) + {g}
  {
    ExtendedList(procs, s, id, g);
    ThreadsOfCore(procs, |procs|, id);
    var list := Extended(s, id, g);
    assert Elements(list) == Elements(FreeList(s, id)) + {g};
    if |list| == |Threads(procs, id)| {
      AllOfThem(list, Threads(procs, id));
    }
  }

  lemma PutThreadFreeSet(procs: Procs, s: Pool, id: CoreId, g: nat)
    requires Inv(procs, s) && g < |procs| && procs[g].UniqueCoreID() == id && g !in FreeSet(procs, s)
    ensures FreeSet(procs, PutThread(s, id, g)) == FreeSet(procs, s) + {g}
  {
    forall i: nat | i < |procs|
      ensures IsFree(procs, PutThread(s, id, g), i) <==> IsFree(procs, s, i) || i == g
    {
      var other := procs[i].UniqueCoreID();
      PutThreadLists(procs, s, id, g, other);
      assert i in FreeList(s, other) <==> i in Elements(FreeList(s, other));
      assert i in FreeList(PutThread(s, id, g), other) <==> i in Elements(FreeList(PutThread(s, id, g), other));
    }
  }

  lemma PutThreadCompletes(procs: Procs, s: Pool, id: CoreId, g: nat)
    requires Inv(procs, s) && id in s.cores && id !in s.free && |Extended(s, id, g)| == |Threads(procs, id)|
    ensures CoresComplete(procs, PutThread(s, id, g)) && FreeEntriesFull(procs, PutThread(s, id, g))
    ensures PartialEntriesProper(procs, PutThread(s, id, g))
    ensures PutThread(s, id, g).freeCores == |PutThread(s, id, g).free|
  {
    var t := PutThread(s, id, g);
    FreeCoreAdded(procs, s, t, id);
    PartialCoreRemoved(procs, s, t, id);
  }

  lemma PutThreadExtends(procs: Procs, s: Pool, id: CoreId, g: nat)
    requires Inv(procs, s) && id in s.cores && id !in s.free && ProperPart(procs, id, Extended(s, id, g))
    ensures CoresComplete(procs, PutThread(s, id, g)) && FreeEntriesFull(procs, PutThread(s, id, g))
    ensures PartialEntriesProper(procs, PutThread(s, id, g))
    ensures PutThread(s, id, g).freeCores == |PutThread(s, id, g).free|
  {
    assert PutThread(s, id, g).partial == s.partial[id := Extended(s, id, g)];
  }

  lemma PutThreadMaps(procs: Procs, s: Pool, id: CoreId, g: nat)
    requires Inv(procs, s) && g < |procs| && procs[g].UniqueCoreID() == id && g !in FreeSet(procs, s)
    ensures CoresComplete(procs, PutThread(s, id, g)) && FreeEntriesFull(procs, PutThread(s, id, g))
    ensures PartialEntriesProper(procs, PutThread(s, id, g))
    ensures PutThread(s, id, g).freeCores == |PutThread(s, id, g).free|
  {
    ExtendedList(procs, s, id, g);
    if |Extended(s, id, g)| == |Threads(procs, id)| {
      PutThreadCompletes(procs, s, id, g);
    } else {
      PutThreadExtends(procs, s, id, g);
    }
  }

  lemma PutThreadKeeps(procs: Procs, s: Pool, id: CoreId, g: nat)
    requires Inv(procs, s) && g < |procs| && procs[g].UniqueCoreID() == id && g !in FreeSet(procs, s)
    ensures Inv(procs, PutThread(s, id, g))
    ensures FreeSet(procs, PutThread(s, id, g)) == FreeSet(procs, s) + {g}
  {
    PutThreadMaps(procs, s, id, g);
    PutThreadFreeSet(procs, s, id, g);
  }

  lemma UnknownCore(procs: Procs, s: Pool, id: CoreId, g: nat)
    requires CoresComplete(procs, s) && id !in s.cores
    ensures !CoresComplete(procs, PutThread(s, id, g))
  {
    assert id in PutThread(s, id, g).cores;
  }

  lemma ThreadOfFreeCore(procs: Procs, s: Pool, id: CoreId, g: nat)
    requires CoresComplete(procs, s) && FreeEntriesFull(procs, s) && s.freeCores == |s.free| && id in s.free
    ensures var t := PutThread(s, id, g); id in t.partial || t.freeCores != |t.free|
  {
    assert s.free[id := s.cores[id].threads].Keys == s.free.Keys;
  }

  lemma StrangerIsNotFreed(procs: Procs, s: Pool, id: CoreId, g: nat)
    requires Inv(procs, s) && id in s.cores && id !in s.free && |Extended(s, id, g)| == |Threads(procs, id)|
    requires g !in FreeSet(procs, s) && !(g < |procs| && procs[g].UniqueCoreID() == id)
    ensures g !in FreeSet(procs, PutThread(s, id, g))
  {
    if g < |procs| {
      assert FreeList(PutThread(s, id, g), procs[g].UniqueCoreID()) == FreeList(s, procs[g].UniqueCoreID());
    }
  }

  lemma StrangerIsListed(procs: Procs, s: Pool, id: CoreId, g: nat)
    requires CoresComplete(procs, s) && id in s.cores && |Extended(s, id, g)| != |Threads(procs, id)|
    requires g !in Threads(procs, id)
    ensures !PartialEntriesProper(procs, PutThread(s, id, g))
  {
    var t := PutThread(s, id, g);
    assert t.partial[id] == Extended(s, id, g);
    assert g in t.partial[id];
  }

  /** A processor that is not the manager's, and not free already, cannot be freed correctly. */
  lemma WrongThread(procs: Procs, s: Pool, id: CoreId, g: nat)
    requires Inv(procs, s) && g !in FreeSet(procs, s) && !(g < |procs| && procs[g].UniqueCoreID() == id)
    ensures !(Inv(procs, PutThread(s, id, g)) && FreeSet(procs, PutThread(s, id, g)) == FreeSet(procs, s) + {g})
  {
    ThreadsOfCore(procs, |procs|, id);
    if id !in s.cores {
      UnknownCore(procs, s, id, g);
    } else if id in s.free {
      ThreadOfFreeCore(procs, s, id, g);
      assert id in PutThread(s, id, g).free;
    } else if |Extended(s, id, g)| == |Threads(procs, id)| {
      StrangerIsNotFreed(procs, s, id, g);
    } else {
      StrangerIsListed(procs, s, id, g);
    }
  }

  /**
   freeThread frees exactly the given thread and keeps the invariant if and only if the
   thread is free already (then nothing changes) or is one of the manager's processors.
   */
  lemma FreeThreadIsRightFor(procs: Procs, s: Pool, p: LogicalProcessor)
    requires Inv(procs, s) && Numbered(procs)
    ensures var t := FreeThread(procs, s, p);
      Inv(procs, t) && FreeSet(procs, t) == FreeSet(procs, s) + {p.globalID}
      <==> p.globalID in FreeSet(procs, s) || Known(procs, p)
    ensures p.globalID in FreeSet(procs, s) ==> FreeThread(procs, s, p) == s
  {
    ListedIsFree(procs, s, p.globalID);
    if p.globalID !in FreeSet(procs, s) {
      if Known(procs, p) {
        PutThreadKeeps(procs, s, p.UniqueCoreID(), p.globalID);
      } else {
        WrongThread(procs, s, p.UniqueCoreID(), p.globalID);
      }
    } else {
      assert FreeSet(procs, s) == FreeSet(procs, s) + {p.globalID};
    }
  }

  // freeProcessor

  lemma PutCoreLists(s: Pool, id: CoreId, other: CoreId)
    requires id in s.cores
    ensures FreeList(PutCore(s, id), other) == if other == id then s.cores[id].threads else FreeList(s, other)
  {
  }

  lemma PutCoreAt(procs: Procs, s: Pool, id: CoreId, i: nat)
    requires CoresComplete(procs, s) && id in s.cores && id !in s.free && i < |procs|
    requires forall k :: k in FreeList(s, id) ==> k in Threads(procs, id)
    ensures IsFree(procs, PutCore(s, id), i) <==> IsFree(procs, s, i) || i in Threads(procs, id)
  {
    ThreadsOfCore(procs, |procs|, id);
    PutCoreLists(s, id, procs[i].UniqueCoreID());
  }

  lemma PutCoreSet(procs: Procs, s: Pool, id: CoreId)
    requires CoresComplete(procs, s) && id in s.cores && id !in s.free
    requires forall k :: k in FreeList(s, id) ==> k in Threads(procs, id)
    requires forall k :: k in Threads(procs, id) ==> k < |procs|
    ensures FreeSet(procs, PutCore(s, id)) == FreeSet(procs, s) + Elements(Threads(procs, id))
  {
    forall i: nat | i < |procs|
      ensures IsFree(procs, PutCore(s, id), i) <==> IsFree(procs, s, i) || i in Threads(procs, id)
    {
      PutCoreAt(procs, s, id, i);
    }
  }

  lemma PutCoreFreeSet(procs: Procs, s: Pool, id: CoreId)
    requires Inv(procs, s) && id in s.cores && id !in s.free
    ensures FreeSet(procs, PutCore(s, id)) == FreeSet(procs, s) + Elements(Threads(procs, id))
  {
    ThreadsOfCore(procs, |procs|, id);
    assert id in s.partial ==> ProperPart(procs, id, s.partial[id]);
    PutCoreSet(procs, s, id);
  }

  // Adding a free core, or replacing a partial list, one map at a time.

  lemma FreeCoreAdded(procs: Procs, s: Pool, t: Pool, id: CoreId)
    requires CoresComplete(procs, s) && FreeEntriesFull(procs, s) && id in s.cores && id !in s.free && t.cores == s.cores
    requires t.free == s.free[id := s.cores[id].threads] && t.partial.Keys <= s.partial.Keys - {id}
    ensures FreeEntriesFull(procs, t) && |t.free| == |s.free| + 1
  {
    assert t.free.Keys == s.free.Keys + {id};
  }

  lemma PartialCoreRemoved(procs: Procs, s: Pool, t: Pool, id: CoreId)
    requires PartialEntriesProper(procs, s) && t.cores == s.cores && t.partial == s.partial - {id}
    ensures PartialEntriesProper(procs, t)
  {
  }

  lemma PutCoreMaps(procs: Procs, s: Pool, id: CoreId)
    requires Inv(procs, s) && id in s.cores && id !in s.free && id !in s.partial
    ensures CoresComplete(procs, PutCore(s, id)) && FreeEntriesFull(procs, PutCore(s, id))
    ensures PartialEntriesProper(procs, PutCore(s, id))
    ensures PutCore(s, id).freeCores == |PutCore(s, id).free|
  {
    FreeCoreAdded(procs, s, PutCore(s, id), id);
    PartialCoreRemoved(procs, s, PutCore(s, id), id);
  }

  lemma PutCoreKeeps(procs: Procs, s: Pool, id: CoreId)
    requires Inv(procs, s) && id in s.cores && id !in s.free && id !in s.partial
    ensures Inv(procs, PutCore(s, id))
    ensures FreeSet(procs, PutCore(s, id)) == FreeSet(procs, s) + Elements(Threads(procs, id))
  {
    PutCoreMaps(procs, s, id);
    PutCoreFreeSet(procs, s, id);
    ThreadsOfCore(procs, |procs|, id);
    DistinctSize(Threads(procs, id));
    assert FreeSet(procs, s) !! Elements(Threads(procs, id));
  }

  /** On a partially free core the full thread count is added although some threads are counted already. */
  lemma PutPartialCoreBreaks(procs: Procs, s: Pool, id: CoreId)
    requires Inv(procs, s) && id in s.partial
    ensures !Inv(procs, PutCore(s, id))
  {
    PutCoreFreeSet(procs, s, id);
    ThreadsOfCore(procs, |procs|, id);
    DistinctSize(Threads(procs, id));
    var a, b := FreeSet(procs, s), Elements(Threads(procs, id));
    var g := s.partial[id][0];
    assert g in s.partial[id];
    ListedThread(procs, s, id, g);
    assert g in a * b;
    assert |a + b| == |a| + |b| - |a * b|;
  }

  /**
   freeProcessor keeps the invariant if and only if it has nothing to do, or the core is
   known and fully allocated; then it frees exactly the core's threads.
   */
  lemma FreeProcessorIsRightFor(procs: Procs, s: Pool, id: CoreId)
    requires Inv(procs, s)
    ensures var t := FreeProcessor(s, id);
      && (Inv(procs, t) <==> |s.free| == |s.cores| || id in s.free || (id in s.cores && id !in s.partial))
      && (Inv(procs, t) ==> FreeSet(procs, t) == FreeSet(procs, s) + Elements(Threads(procs, id)))
  {
    if |s.free| == |s.cores| {
      SameSizeSubset(s.free.Keys, s.cores.Keys);
    }
    ThreadsOfCore(procs, |procs|, id);
    if id in s.free || id !in s.cores {
      TakeNothing(procs, s, id);
    }
    if |s.free| == |s.cores| || id in s.free {
    } else if id !in s.cores {
      assert id in PutCore(s, id).cores;
    } else if id in s.partial {
      PutPartialCoreBreaks(procs, s, id);
    } else {
      PutCoreKeeps(procs, s, id);
    }
  }

  /** The threads of a free core are free, and an unknown core has none. */
  lemma TakeNothing(procs: Procs, s: Pool, id: CoreId)
    requires Inv(procs, s) && (id in s.free || id !in s.cores)
    ensures FreeSet(procs, s) == FreeSet(procs, s) + Elements(Threads(procs, id))
  {
    ThreadsOfCore(procs, |procs|, id);
    if id in s.free {
      TakeCoreFreeSet(procs, s, id);
    }
  }

  // Round trips.

  /** Freeing a thread undoes its allocation, in every field. */
  lemma FreeUndoesAllocateThread(procs: Procs, s: Pool, key: CoreId)
    requires Inv(procs, s) && Numbered(procs) && CanOpen(s, key)
    ensures ListOf(s, key) != [] && TakenThread(s, key) < |procs|
    ensures FreeThread(procs, TakeThread(s, key), procs[TakenThread(s, key)]) == s
  {
    OpenList(procs, s, key);
    TakenThreadOfCore(procs, s, key);
    TakeThreadKeeps(procs, s, key);
    ListedIsFree(procs, TakeThread(s, key), TakenThread(s, key));
    PutBack(procs, s, key);
  }

  lemma RemoveThenPut<K, V>(m: map<K, V>, k: K)
    requires k in m
    ensures (m - {k})[k := m[k]] == m
  {
  }

  lemma PutTwice<K, V>(m: map<K, V>, k: K, v: V)
    requires k in m
    ensures m[k := v][k := m[k]] == m
  {
  }

  lemma LastPutBack(list: seq<nat>)
    requires list != []
    ensures list[..|list| - 1] + [list[|list| - 1]] == list
  {
  }

  lemma PutBack(procs: Procs, s: Pool, key: CoreId)
    requires Inv(procs, s) && CanOpen(s, key) && ListOf(s, key) != []
    ensures PutThread(TakeThread(s, key), key, TakenThread(s, key)) == s
  {
    OpenList(procs, s, key);
    LastPutBack(ListOf(s, key));
    if s.partial == map[] {
      PutBackOpened(procs, s, key);
    } else {
      PutBackPartial(procs, s, key);
    }
  }

  lemma PutThreadOnComplete(t: Pool, id: CoreId, g: nat)
    requires id in t.cores && |Extended(t, id, g)| == t.cores[id].threadCount
    ensures PutThread(t, id, g) ==
      Pool(t.cores, t.partial - {id}, t.free[id := t.cores[id].threads], t.freeThreads + 1, t.freeCores + 1)
  {
  }

  lemma PutBackOpened(procs: Procs, s: Pool, key: CoreId)
    requires CoresComplete(procs, s) && FreeEntriesFull(procs, s) && s.partial == map[] && key in s.free && s.free[key] != []
    ensures PutThread(TakeThread(s, key), key, TakenThread(s, key)) == s
  {
    var t, list := TakeThread(s, key), s.free[key];
    LastPutBack(list);
    RemoveThenPut(s.free, key);
    assert Extended(t, key, TakenThread(s, key)) == list;
    PutThreadOnComplete(t, key, TakenThread(s, key));
    assert t.partial - {key} == map[];
  }

  lemma PutThreadOnPartial(t: Pool, id: CoreId, g: nat)
    requires id in t.cores && |Extended(t, id, g)| != t.cores[id].threadCount
    ensures PutThread(t, id, g) == t.(partial := t.partial[id := Extended(t, id, g)], freeThreads := t.freeThreads + 1)
  {
  }

  lemma PutBackPartial(procs: Procs, s: Pool, key: CoreId)
    requires CoresComplete(procs, s) && PartialEntriesProper(procs, s) && key in s.partial
    ensures s.partial != map[] && s.partial[key] != []
    ensures PutThread(TakeThread(s, key), key, TakenThread(s, key)) == s
  {
    var list := s.partial[key];
    assert ProperPart(procs, key, list);
    LastPutBack(list);
    var t := TakeThread(s, key);
    assert Extended(t, key, TakenThread(s, key)) == list;
    PutThreadOnPartial(t, key, TakenThread(s, key));
    if |list| == 1 {
      RemoveThenPut(s.partial, key);
    } else {
      PutTwice(s.partial, key, list[..|list| - 1]);
    }
  }

  /** Freeing a core undoes its allocation, in every field. */
  lemma FreeUndoesAllocateCore(procs: Procs, s: Pool, key: CoreId)
    requires Inv(procs, s) && key in s.free
    ensures FreeProcessor(TakeCore(s, key), key) == s
  {
    var t := TakeCore(s, key);
    FewerCores(s, key);
    RemoveThenPut(s.free, key);
    assert t.partial - {key} == s.partial;
  }

  lemma FewerCores(s: Pool, key: CoreId)
    requires key in s.free && s.free.Keys <= s.cores.Keys
    ensures |TakeCore(s, key).free| != |s.cores|
  {
    assert TakeCore(s, key).free.Keys == s.free.Keys - {key};
    SubsetSize(s.free.Keys, s.cores.Keys);
  }
}
