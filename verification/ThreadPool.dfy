/**
 The bookkeeping of DynamicThreadManager (tailslayer/source/proc.cpp) as values: which
 threads are free, how each operation changes that, and what every operation keeps.
 */
module ThreadPool {
  import opened Processors

  datatype CoreEntry = CoreEntry(threadCount: int, threads: seq<nat>)

  /** m_coreToThreadMapIdx, m_partiallyFreeCoreMap, m_freeCoreMap and the two counters. */
  datatype Pool = Pool(cores: map<CoreId, CoreEntry>, partial: map<CoreId, seq<nat>>, free: map<CoreId, seq<nat>>,
                       freeThreads: int, freeCores: int)

  /** The threads of core id among the first n processors, in ascending order. */
  function ThreadsOf(procs: Procs, n: nat, id: CoreId): seq<nat>
    requires n <= |procs|
  {
    if n == 0 then []
    else ThreadsOf(procs, n - 1, id) + if procs[n - 1].UniqueCoreID() == id then [n - 1] else []
  }

  function Threads(procs: Procs, id: CoreId): seq<nat> {
    ThreadsOf(procs, |procs|, id)
  }

  function CoreIds(procs: Procs): set<CoreId> {
    set i | 0 <= i < |procs| :: procs[i].UniqueCoreID()
  }

  ghost predicate Distinct(s: seq<nat>) {
    forall i, j :: 0 <= i < j < |s| ==> s[i] != s[j]
  }

  function Elements(s: seq<nat>): set<nat> {
    set x | x in s
  }

  lemma {:induction false} ThreadsOfCore(procs: Procs, n: nat, id: CoreId)
    requires n <= |procs|
    ensures forall i :: i in ThreadsOf(procs, n, id) <==> 0 <= i < n && procs[i].UniqueCoreID() == id
    ensures Distinct(ThreadsOf(procs, n, id))
  {
    if n > 0 {
      ThreadsOfCore(procs, n - 1, id);
      var before := ThreadsOf(procs, n - 1, id);
      forall k | 0 <= k < |before|
        ensures before[k] != n - 1
      {
        assert before[k] in before;
      }
    }
  }

  ghost predicate TableOrder(s: seq<nat>) {
    forall k, m :: 0 <= k < m < |s| ==> s[k] < s[m]
  }

  lemma OrderExtends(s: seq<nat>, x: nat)
    requires TableOrder(s) && forall i :: i in s ==> i < x
    ensures TableOrder(s + [x])
  {
    forall k | 0 <= k < |s|
      ensures s[k] < x
    {
      assert s[k] in s;
    }
  }

  lemma HeadIsLeast(s: seq<nat>)
    requires TableOrder(s) && s != []
    ensures forall i :: i in s ==> s[0] <= i
  {
  }

  /** A core's threads are listed in table order. */
  lemma {:induction false} ThreadsAscend(procs: Procs, n: nat, id: CoreId)
    requires n <= |procs|
    ensures TableOrder(ThreadsOf(procs, n, id))
  {
    if n > 0 {
      ThreadsAscend(procs, n - 1, id);
      ThreadsOfCore(procs, n - 1, id);
      OrderExtends(ThreadsOf(procs, n - 1, id), n - 1);
    }
  }

  lemma {:induction false} DistinctSize(s: seq<nat>)
    requires Distinct(s)
    ensures |Elements(s)| == |s|
  {
    if s != [] {
      var init := s[..|s| - 1];
      DistinctSize(init);
      assert Elements(s) == Elements(init) + {s[|s| - 1]};
    }
  }

  /** The free threads listed for a core. */
  function FreeList(s: Pool, id: CoreId): seq<nat> {
    if id in s.free then s.free[id] else if id in s.partial then s.partial[id] else []
  }

  predicate IsFree(procs: Procs, s: Pool, i: nat)
    requires i < |procs|
  {
    i in FreeList(s, procs[i].UniqueCoreID())
  }

  function FreeSet(procs: Procs, s: Pool): set<nat> {
    set i: nat | i < |procs| && IsFree(procs, s, i)
  }

  /** All thread indices below n. */
  ghost function Below(n: nat): (r: set<nat>)
    ensures forall i :: i in r <==> 0 <= i < n
  {
    if n == 0 then {} else Below(n - 1) + {n - 1}
  }

  /** The processors are numbered by their position. */
  ghost predicate Numbered(procs: Procs) {
    forall i :: 0 <= i < |procs| ==> procs[i].globalID == i
  }

  ghost predicate FreeEntriesFull(procs: Procs, s: Pool) {
    forall id :: id in s.free ==> id in s.cores && id !in s.partial && s.free[id] == Threads(procs, id)
  }

  /** A partial entry lists some, but neither none nor all, of its core's threads, each once. */
  ghost predicate ProperPart(procs: Procs, id: CoreId, list: seq<nat>) {
    list != [] && Distinct(list) && |list| < |Threads(procs, id)| && forall i :: i in list ==> i in Threads(procs, id)
  }

  ghost predicate PartialEntriesProper(procs: Procs, s: Pool) {
    forall id :: id in s.partial ==> id in s.cores && ProperPart(procs, id, s.partial[id])
  }

  ghost predicate CoresComplete(procs: Procs, s: Pool) {
    s.cores.Keys == CoreIds(procs)
    && forall id :: id in s.cores ==> s.cores[id] == CoreEntry(|Threads(procs, id)|, Threads(procs, id))
  }

  /** The manager's invariant. */
  ghost predicate Inv(procs: Procs, s: Pool) {
    && CoresComplete(procs, s) && FreeEntriesFull(procs, s) && PartialEntriesProper(procs, s)
    && s.freeCores == |s.free|
    && s.freeThreads == |FreeSet(procs, s)|
  }

  /** The total length of the lists of some cores. */
  ghost function ListedTotal(lists: map<CoreId, seq<nat>>, ids: set<CoreId>): nat
    requires ids <= lists.Keys
    decreases ids
  {
    if ids == {} then 0
    else
      var id :| id in ids;
      |lists[id]| + ListedTotal(lists, ids - {id})
  }

  ghost function ListedIn(procs: Procs, lists: map<CoreId, seq<nat>>, ids: set<CoreId>): set<nat> {
    set i: nat | i < |procs| && procs[i].UniqueCoreID() in ids && procs[i].UniqueCoreID() in lists
      && i in lists[procs[i].UniqueCoreID()]
  }

  lemma {:induction false} ListedTotalCounts(procs: Procs, lists: map<CoreId, seq<nat>>, ids: set<CoreId>)
    requires ids <= lists.Keys
    requires forall id :: id in lists ==> Distinct(lists[id]) && forall i :: i in lists[id] ==> i in Threads(procs, id)
    ensures ListedTotal(lists, ids) == |ListedIn(procs, lists, ids)|
    decreases ids
  {
    if ids == {} {
      assert ListedIn(procs, lists, ids) == {};
    } else {
      var id :| id in ids && ListedTotal(lists, ids) == |lists[id]| + ListedTotal(lists, ids - {id});
      ListedTotalCounts(procs, lists, ids - {id});
      DistinctSize(lists[id]);
      ThreadsOfCore(procs, |procs|, id);
      var rest := ListedIn(procs, lists, ids - {id});
      assert ListedIn(procs, lists, ids) == rest + Elements(lists[id]);
      assert rest !! Elements(lists[id]);
    }
  }

  /** The free-thread count is the total length of the lists. */
  lemma FreeThreadsAreListed(procs: Procs, s: Pool)
    requires Inv(procs, s)
    ensures s.freeThreads == ListedTotal(s.free, s.free.Keys) + ListedTotal(s.partial, s.partial.Keys)
  {
    forall id | id in s.free
      ensures Distinct(s.free[id])
    {
      ThreadsOfCore(procs, |procs|, id);
    }
    ListedTotalCounts(procs, s.free, s.free.Keys);
    ListedTotalCounts(procs, s.partial, s.partial.Keys);
    FreeSetSplits(procs, s);
  }

  lemma FreeSetSplits(procs: Procs, s: Pool)
    requires FreeEntriesFull(procs, s)
    ensures var a, b := ListedIn(procs, s.free, s.free.Keys), ListedIn(procs, s.partial, s.partial.Keys);
      FreeSet(procs, s) == a + b && a !! b
  {
  }

  // The operations.

  /** allocateProcessor, when the map's first key is key. */
  function TakeCore(s: Pool, key: CoreId): Pool
    requires key in s.free
  {
    s.(free := s.free - {key}, freeThreads := s.freeThreads - |s.free[key]|, freeCores := s.freeCores - 1)
  }

  /** allocateThread takes from a partially free core if there is one, otherwise it opens a free core. */
  predicate CanOpen(s: Pool, key: CoreId) {
    if s.partial == map[] then key in s.free else key in s.partial
  }

  function ListOf(s: Pool, key: CoreId): seq<nat>
    requires CanOpen(s, key)
  {
    if s.partial == map[] then s.free[key] else s.partial[key]
  }

  function TakeThread(s: Pool, key: CoreId): Pool
    requires CanOpen(s, key) && ListOf(s, key) != []
  {
    var list := ListOf(s, key);
    var rest := list[..|list| - 1];
    var opensCore := s.partial == map[];
    Pool(s.cores,
         if rest == [] then s.partial - {key} else s.partial[key := rest],
         if opensCore then s.free - {key} else s.free,
         s.freeThreads - 1,
         if opensCore then s.freeCores - 1 else s.freeCores)
  }

  function TakenThread(s: Pool, key: CoreId): nat
    requires CanOpen(s, key) && ListOf(s, key) != []
  {
    ListOf(s, key)[|ListOf(s, key)| - 1]
  }

  /** The core table's operator[] inserts an empty entry for an unknown core. */
  function WithCore(s: Pool, id: CoreId): Pool {
    if id in s.cores then s else s.(cores := s.cores[id := CoreEntry(0, [])])
  }

  /** Does some list name a processor with this global id? */
  predicate Listed(procs: Procs, s: Pool, globalID: nat) {
    || (exists id :: id in s.partial && Names(procs, s.partial[id], globalID))
    || (exists id :: id in s.free && Names(procs, s.free[id], globalID))
  }

  predicate Names(procs: Procs, list: seq<nat>, globalID: nat) {
    exists k :: 0 <= k < |list| && list[k] < |procs| && procs[list[k]].globalID == globalID
  }

  /** The part of freeThread after the search. */
  function PutThread(s: Pool, id: CoreId, globalID: nat): Pool {
    var list := (if id in s.partial then s.partial[id] else []) + [globalID];
    var t := WithCore(s, id);
    if |list| == t.cores[id].threadCount then
      Pool(t.cores, s.partial - {id}, s.free[id := t.cores[id].threads], s.freeThreads + 1, s.freeCores + 1)
    else
      Pool(t.cores, s.partial[id := list], s.free, s.freeThreads + 1, s.freeCores)
  }

  /** freeThread */
  function FreeThread(procs: Procs, s: Pool, p: LogicalProcessor): Pool {
    if Listed(procs, s, p.globalID) then s else PutThread(s, p.UniqueCoreID(), p.globalID)
  }

  /** The part of freeProcessor after the two tests. */
  function PutCore(s: Pool, id: CoreId): Pool {
    var t := WithCore(s, id);
    Pool(t.cores, s.partial - {id}, s.free[id := t.cores[id].threads], s.freeThreads + t.cores[id].threadCount, s.freeCores + 1)
  }

  /** freeProcessor */
  function FreeProcessor(s: Pool, id: CoreId): Pool {
    if |s.free| == |s.cores| || id in s.free then s else PutCore(s, id)
  }

  // What the allocating operations keep.

  lemma CoreHasThreads(procs: Procs, s: Pool, id: CoreId)
    requires CoresComplete(procs, s) && id in s.cores
    ensures Threads(procs, id) != []
  {
    ThreadsOfCore(procs, |procs|, id);
    var i :| 0 <= i < |procs| && procs[i].UniqueCoreID() == id;
    assert i in Threads(procs, id);
  }

  lemma RemoveThreads(a: set<nat>, b: set<nat>, list: seq<nat>)
    requires Distinct(list) && Elements(list) <= a && b == a - Elements(list)
    ensures |b| == |a| - |list|
  {
    DistinctSize(list);
  }

  lemma TakeCoreFreeSet(procs: Procs, s: Pool, key: CoreId)
    requires FreeEntriesFull(procs, s) && key in s.free
    ensures Elements(Threads(procs, key)) <= FreeSet(procs, s)
    ensures FreeSet(procs, TakeCore(s, key)) == FreeSet(procs, s) - Elements(Threads(procs, key))
  {
    ThreadsOfCore(procs, |procs|, key);
  }

  /** Allocating a core hands out exactly its threads, all of them free before. */
  lemma TakeCoreKeeps(procs: Procs, s: Pool, key: CoreId)
    requires Inv(procs, s) && key in s.free
    ensures Inv(procs, TakeCore(s, key))
    ensures Elements(Threads(procs, key)) <= FreeSet(procs, s)
    ensures FreeSet(procs, TakeCore(s, key)) == FreeSet(procs, s) - Elements(Threads(procs, key))
  {
    var t := TakeCore(s, key);
    TakeCoreFreeSet(procs, s, key);
    ThreadsOfCore(procs, |procs|, key);
    RemoveThreads(FreeSet(procs, s), FreeSet(procs, t), Threads(procs, key));
    assert t.free.Keys == s.free.Keys - {key};
  }

  lemma OpenList(procs: Procs, s: Pool, key: CoreId)
    requires Inv(procs, s) && CanOpen(s, key)
    ensures key in s.cores && ListOf(s, key) != [] && Distinct(ListOf(s, key))
    ensures forall i :: i in ListOf(s, key) ==> i in Threads(procs, key)
    ensures |ListOf(s, key)| <= |Threads(procs, key)|
  {
    ThreadsOfCore(procs, |procs|, key);
    CoreHasThreads(procs, s, key);
  }

  lemma TakeThreadLists(s: Pool, key: CoreId, id: CoreId)
    requires CanOpen(s, key) && ListOf(s, key) != [] && (key in s.partial ==> key !in s.free)
    ensures FreeList(s, key) == ListOf(s, key)
    ensures FreeList(TakeThread(s, key), id) ==
      if id == key then ListOf(s, key)[..|ListOf(s, key)| - 1] else FreeList(s, id)
  {
  }

  lemma LastRemoved(list: seq<nat>, i: nat)
    requires list != [] && Distinct(list)
    ensures i in list[..|list| - 1] <==> i in list && i != list[|list| - 1]
  {
  }

  lemma TakeThreadAt(procs: Procs, s: Pool, key: CoreId, i: nat)
    requires CanOpen(s, key) && ListOf(s, key) != [] && (key in s.partial ==> key !in s.free)
    requires Distinct(ListOf(s, key)) && i < |procs|
    requires TakenThread(s, key) < |procs| && procs[TakenThread(s, key)].UniqueCoreID() == key
    ensures IsFree(procs, TakeThread(s, key), i) <==> IsFree(procs, s, i) && i != TakenThread(s, key)
  {
    TakeThreadLists(s, key, procs[i].UniqueCoreID());
    LastRemoved(ListOf(s, key), i);
  }

  lemma TakenThreadOfCore(procs: Procs, s: Pool, key: CoreId)
    requires Inv(procs, s) && CanOpen(s, key)
    ensures ListOf(s, key) != [] && TakenThread(s, key) < |procs|
    ensures procs[TakenThread(s, key)].UniqueCoreID() == key && IsFree(procs, s, TakenThread(s, key))
  {
    OpenList(procs, s, key);
    ThreadsOfCore(procs, |procs|, key);
    TakeThreadLists(s, key, key);
    assert TakenThread(s, key) in ListOf(s, key);
  }

  lemma TakeThreadFreeSet(procs: Procs, s: Pool, key: CoreId)
    requires Inv(procs, s) && CanOpen(s, key)
    ensures ListOf(s, key) != [] && TakenThread(s, key) in FreeSet(procs, s)
    ensures FreeSet(procs, TakeThread(s, key)) == FreeSet(procs, s) - {TakenThread(s, key)}
  {
    OpenList(procs, s, key);
    TakenThreadOfCore(procs, s, key);
    forall i: nat | i < |procs|
      ensures IsFree(procs, TakeThread(s, key), i) <==> IsFree(procs, s, i) && i != TakenThread(s, key)
    {
      TakeThreadAt(procs, s, key, i);
    }
  }

  lemma TakeThreadPartial(procs: Procs, s: Pool, key: CoreId)
    requires Inv(procs, s) && CanOpen(s, key)
    ensures ListOf(s, key) != []
    ensures PartialEntriesProper(procs, TakeThread(s, key)) && FreeEntriesFull(procs, TakeThread(s, key))
    ensures TakeThread(s, key).freeCores == |TakeThread(s, key).free|
  {
    OpenList(procs, s, key);
    var list, t := ListOf(s, key), TakeThread(s, key);
    var rest := list[..|list| - 1];
    assert rest != [] ==> ProperPart(procs, key, rest) by {
      assert forall i :: i in rest ==> i in list;
    }
    if s.partial == map[] {
      assert t.free.Keys == s.free.Keys - {key};
    }
  }

  /** Allocating a thread hands out one thread that was free before. */
  lemma TakeThreadKeeps(procs: Procs, s: Pool, key: CoreId)
    requires Inv(procs, s) && CanOpen(s, key)
    ensures ListOf(s, key) != [] && Inv(procs, TakeThread(s, key))
    ensures TakenThread(s, key) in FreeSet(procs, s)
    ensures procs[TakenThread(s, key)].UniqueCoreID() == key
    ensures FreeSet(procs, TakeThread(s, key)) == FreeSet(procs, s) - {TakenThread(s, key)}
  {
    TakenThreadOfCore(procs, s, key);
    TakeThreadFreeSet(procs, s, key);
    TakeThreadPartial(procs, s, key);
  }

  /** Threads are packed: allocating threads never leaves more partially free cores than there were, or one. */
  lemma TakeThreadPacks(procs: Procs, s: Pool, key: CoreId)
    requires Inv(procs, s) && CanOpen(s, key)
    ensures ListOf(s, key) != [] && |TakeThread(s, key).partial| <= if s.partial == map[] then 1 else |s.partial|
  {
    OpenList(procs, s, key);
    var t := TakeThread(s, key);
    assert t.partial.Keys <= s.partial.Keys + {key};
    if s.partial == map[] {
      assert t.partial.Keys <= {key};
      SubsetSize(t.partial.Keys, {key});
    } else {
      SubsetSize(t.partial.Keys, s.partial.Keys);
    }
  }

  lemma SubsetSize<T>(a: set<T>, b: set<T>)
    requires a <= b
    ensures |a| <= |b|
  {
    assert b == a + (b - a);
  }

  /** Something can be allocated whenever the counters say so. */
  lemma CountersAreHonest(procs: Procs, s: Pool)
    requires Inv(procs, s)
    ensures s.freeCores > 0 <==> s.free != map[]
    ensures s.freeThreads > 0 <==> exists key :: CanOpen(s, key)
  {
    if s.freeThreads > 0 {
      var i :| i in FreeSet(procs, s);
      var id := procs[i].UniqueCoreID();
      if s.partial == map[] {
        assert CanOpen(s, id);
      } else {
        var k :| k in s.partial;
        assert CanOpen(s, k);
      }
    }
    if key :| CanOpen(s, key) {
      TakeThreadFreeSet(procs, s, key);
    }
    assert s.free == map[] <==> s.free.Keys == {};
  }
}
