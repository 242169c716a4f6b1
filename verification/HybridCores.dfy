/**
 A processor with cores of two sizes on which the utilization check of execute_benchmarks
 (benchmark/source/main.cpp) admits a request that cannot be served.
 */
module HybridCores {
  import opened Machine
  import opened Bits
  import opened Processors
  import opened Topology
  import opened TopologyEntries
  import opened ThreadPool
  import opened ThreadManager
  import opened TopologyFacts
  import opened AdmissionCheck
  import opened Launch

  // Five cores of two threads, then eight cores of one thread, in one package.

  function FirstBit(c: nat): nat {
    if c < 5 then 2 * c else c + 5
  }

  function Size(c: nat): nat {
    if c < 5 then 2 else 1
  }

  function CoreMask(c: nat): GroupMask
    requires c < 13
  {
    MaskFits(c);
    GroupMask(0, ShiftLeft(Pow2(Size(c)) - 1, FirstBit(c)))
  }

  lemma MaskFits(c: nat)
    requires c < 13
    ensures 0 < ShiftLeft(Pow2(Size(c)) - 1, FirstBit(c)) < U64_LIMIT
  {
    assert Pow2(1) == 2 && Pow2(2) == 4;
    ShiftedBelow(Pow2(Size(c)) - 1, Size(c), FirstBit(c));
    Pow2Monotone(FirstBit(c) + Size(c), 64);
    Pow2Constants();
  }

  lemma {:induction false} ShiftedBelow(x: nat, n: nat, m: nat)
    requires 0 < x < Pow2(n)
    ensures 0 < ShiftLeft(x, m) < Pow2(m + n)
  {
    if m > 0 {
      ShiftedBelow(x, n, m - 1);
    }
  }

  function Cores(n: nat): (r: seq<seq<GroupMask>>)
    requires n <= 13
    ensures |r| == n && forall c :: 0 <= c < n ==> r[c] == [CoreMask(c)]
  {
    if n == 0 then [] else Cores(n - 1) + [[CoreMask(n - 1)]]
  }

  function CoreRecords(n: nat): seq<Record>
    requires n <= 13
  {
    if n == 0 then [] else CoreRecords(n - 1) + [Core([CoreMask(n - 1)])]
  }

  function AllThreads(): GroupMask {
    Pow2Monotone(18, 64);
    Pow2Constants();
    GroupMask(0, Pow2(18) - 1)
  }

  function Records(): seq<Record> {
    CoreRecords(13) + [Package([AllThreads()])]
  }

  lemma {:induction false} CoreRecordsDescribe(n: nat)
    requires n <= 13
    ensures CoresOf(CoreRecords(n)) == Cores(n) && PackagesOf(CoreRecords(n)) == []
    ensures |CoreRecords(n)| == n && WellFormed(CoreRecords(n))
  {
    if n > 0 {
      CoreRecordsDescribe(n - 1);
      assert CoreRecords(n)[..n - 1] == CoreRecords(n - 1);
    }
  }

  lemma RecordsDescribe()
    ensures WellFormed(Records()) && CoresOf(Records()) == Cores(13) && PackagesOf(Records()) == [[AllThreads()]]
  {
    CoreRecordsDescribe(13);
    assert Records()[..13] == CoreRecords(13);
  }

  // The records are regular.

  lemma {:induction false} BitsOfShifted(x: nat, n: nat, m: nat, b: nat)
    requires x < Pow2(n) && Bit(ShiftLeft(x, m), b)
    ensures m <= b < m + n
  {
    if m > 0 {
      if b > 0 {
        BitsOfShifted(x, n, m - 1, b - 1);
      }
    } else {
      BitsBelow(x, n, b);
    }
  }

  lemma {:induction false} BitsBelow(x: nat, n: nat, b: nat)
    requires x < Pow2(n) && Bit(x, b)
    ensures b < n
  {
    if n == 0 {
      ZeroBits(b);
    } else if b > 0 {
      BitsBelow(x / 2, n - 1, b - 1);
    }
  }

  lemma {:induction false} BitsOfOnes(n: nat, b: nat)
    requires b < n
    ensures Bit(Pow2(n) - 1, b)
  {
    if b > 0 {
      assert (Pow2(n) - 1) / 2 == Pow2(n - 1) - 1;
      BitsOfOnes(n - 1, b - 1);
    }
  }

  lemma BitsOfCore(c: nat, b: nat)
    requires c < 13 && Bit(CoreMask(c).mask, b)
    ensures FirstBit(c) <= b < FirstBit(c) + Size(c) <= 18
  {
    BitsOfShifted(Pow2(Size(c)) - 1, Size(c), FirstBit(c), b);
  }

  lemma CoresDisjoint(c: nat, d: nat)
    requires c < d < 13
    ensures !Overlap(CoreMask(c), CoreMask(d))
  {
    if Overlap(CoreMask(c), CoreMask(d)) {
      var b: nat :| b < 64 && Bit(CoreMask(c).mask, b) && Bit(CoreMask(d).mask, b);
      BitsOfCore(c, b);
      BitsOfCore(d, b);
      assert false;
    }
  }

  lemma PackageOwns(c: nat)
    requires c < 13
    ensures OwnedBy([[AllThreads()]], CoreMask(c), 0)
  {
    forall b: nat | b < 64 && Bit(CoreMask(c).mask, b)
      ensures HasBit([AllThreads()], 0, b)
    {
      BitsOfCore(c, b);
      BitsOfOnes(18, b);
      assert [AllThreads()][0].group == 0;
    }
  }

  lemma CoresAreSingle()
    ensures SingleGroup(Cores(13))
  {
    forall c: nat | c < 13
      ensures CoreMask(c).mask != 0
    {
      MaskFits(c);
    }
  }

  lemma CoresAreDisjoint()
    ensures SingleGroup(Cores(13)) && PairwiseDisjoint(Cores(13))
  {
    CoresAreSingle();
    forall c, d | 0 <= c < d < 13
      ensures !Overlap(Cores(13)[c][0], Cores(13)[d][0])
    {
      CoresDisjoint(c, d);
    }
  }

  lemma RecordsAreRegular()
    ensures Regular(Cores(13), [[AllThreads()]])
  {
    CoresAreDisjoint();
    forall c | 0 <= c < 13
      ensures exists k :: OwnedBy([[AllThreads()]], Cores(13)[c][0], k)
    {
      CoreIsOwned(c);
    }
  }

  lemma CoreIsOwned(c: nat)
    requires c < 13
    ensures OwnedBy([[AllThreads()]], Cores(13)[c][0], 0)
  {
    PackageOwns(c);
    assert Cores(13)[c][0] == CoreMask(c);
  }

  lemma CoreSize(c: nat)
    requires c < 13
    ensures PopCount(CoreMask(c).mask) == Size(c)
  {
    PopCountSplit(Pow2(Size(c)) - 1, 0, FirstBit(c));
    PopCountOnes(Size(c));
  }

  lemma {:induction false} ThreadCount(n: nat)
    requires n <= 13
    ensures TotalBits(Cores(13), n) == if n <= 5 then 2 * n else n + 5
  {
    if n > 0 {
      ThreadCount(n - 1);
      CoreSize(n - 1);
    }
  }

  // The manager on this processor.

  /** The topology pass builds such a table. */
  ghost predicate IsTable(procs: Procs) {
    SingleGroup(Cores(13)) && GoodTopology(procs, Cores(13))
  }

  /** ids[c] is the manager's identifier of core c. */
  ghost predicate Listing(procs: Procs, ids: seq<CoreId>, n: nat)
    requires n <= 13
  {
    && |ids| == n
    && (forall c :: 0 <= c < n ==> ids[c] in CoreIds(procs) && |Threads(procs, ids[c])| == Size(c))
    && (forall c, d :: 0 <= c < d < n ==> ids[c] != ids[d])
  }

  lemma {:induction false} CoreListing(procs: Procs, n: nat) returns (ids: seq<CoreId>, firsts: seq<nat>)
    requires IsTable(procs) && n <= 13
    ensures Listing(procs, ids, n) && |firsts| == n
    ensures forall c :: 0 <= c < n ==> firsts[c] < |procs| && procs[firsts[c]].coreID == c && procs[firsts[c]].UniqueCoreID() == ids[c]
  {
    if n == 0 {
      ids, firsts := [], [];
    } else {
      ids, firsts := CoreListing(procs, n - 1);
      var i := ThreadOfCore(procs, n - 1);
      forall c | 0 <= c < n - 1
        ensures ids[c] != procs[i].UniqueCoreID()
      {
        assert procs[firsts[c]].coreID != procs[i].coreID;
      }
      ids, firsts := ids + [procs[i].UniqueCoreID()], firsts + [i];
    }
  }

  lemma ThreadOfCore(procs: Procs, c: nat) returns (i: nat)
    requires IsTable(procs) && c < 13
    ensures i < |procs| && procs[i].coreID == c && |Threads(procs, procs[i].UniqueCoreID())| == Size(c)
  {
    assert HasCore(procs, c);
    i :| 0 <= i < |procs| && procs[i].coreID == c;
    ThreadsAreMaskBits(procs, Cores(13), i);
    CoreSize(c);
  }

  /** The cores with numbers 1 .. n. */
  ghost function LargeCores(ids: seq<CoreId>, n: nat): (r: set<CoreId>)
    requires n < |ids|
    ensures forall id :: id in r <==> exists c :: 1 <= c <= n && ids[c] == id
  {
    if n == 0 then {} else LargeCores(ids, n - 1) + {ids[n]}
  }

  lemma {:induction false} LargeCoresTotal(procs: Procs, s: Pool, ids: seq<CoreId>, n: nat)
    requires n <= 4 && Listing(procs, ids, 13)
    requires s.free.Keys == CoreIds(procs) - {ids[0]}
    requires forall id :: id in s.free ==> s.free[id] == Threads(procs, id)
    ensures LargeCores(ids, n) <= s.free.Keys && |LargeCores(ids, n)| == n
    ensures ListedTotal(s.free, LargeCores(ids, n)) == 2 * n
  {
    if n > 0 {
      LargeCoresTotal(procs, s, ids, n - 1);
      assert ids[n] !in LargeCores(ids, n - 1) && ids[n] in s.free && |s.free[ids[n]]| == 2;
      ListedTotalAdd(s.free, LargeCores(ids, n - 1), ids[n]);
    }
  }

  lemma PoolAfterMain(procs: Procs, key: CoreId)
    requires IsTable(procs) && key in CoreIds(procs) && |Threads(procs, key)| == 2
    ensures var s := AfterMain(procs, 13, key);
      Inv(procs, s) && s.freeThreads == 16 && s.freeCores == 12 && s.free.Keys == CoreIds(procs) - {key}
      && forall id :: id in s.free ==> s.free[id] == Threads(procs, id)
  {
    ThreadCount(13);
    InitialPoolIsValid(procs, |procs|, 13);
    TakeCoreKeeps(procs, InitialPool(procs, |procs|, 13), key);
  }

  /**
   Equal cores cannot simply be dropped from the condition. On this processor, in the table
   that the topology pass builds and with the main thread's core taken, 16 threads on 12
   cores are free. Four channels and nine stress threads pass the check, but the map may
   yield the four two-thread cores first.
   */
  lemma MixedCoresMayFail(v: ProcessorConfigurationVector, access: Access) returns (key: CoreId)
    requires Describes(v, Records(), access)
    ensures IsTable(v.proc) && key in CoreIds(v.proc)
    ensures var s := AfterMain(v.proc, 13, key);
      Inv(v.proc, s) && s.freeThreads == 16 && s.freeCores == 12 && Admitted(16, 12, 4, 9) && !Guaranteed(s, 4, 9)
  {
    TableOfRecords(v, access);
    var ids, firsts := CoreListing(v.proc, 13);
    key := ids[0];
    PoolAfterMain(v.proc, key);
    LargeCoresTotal(v.proc, AfterMain(v.proc, 13, key), ids, 4);
    assert !Suffices(AfterMain(v.proc, 13, key), LargeCores(ids, 4), 9);
  }

  lemma TableOfRecords(v: ProcessorConfigurationVector, access: Access)
    requires Describes(v, Records(), access)
    ensures IsTable(v.proc)
  {
    RecordsDescribe();
    RecordsAreRegular();
    ThreadCount(13);
    CountsAreRight(v, Records(), access);
  }
}
