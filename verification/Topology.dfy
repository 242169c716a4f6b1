/**
 Processor topology from the Windows processor-information records
 (ProcessorConfigurationVector, tailslayer/source/proc.cpp, tailslayer/include/tailslayer/proc.hpp).
 */
module Topology {
  import opened Machine
  import opened Bits
  import opened Processors
  import opened Wrappers

  /** SYSTEM_LOGICAL_PROCESSOR_INFORMATION_EX: a core or a package with its group masks. */
  datatype Record = Core(groups: seq<GroupMask>) | Package(groups: seq<GroupMask>) | Other

  /** Every core or package record carries at least one group mask. */
  ghost predicate WellFormed(native: seq<Record>) {
    |native| < 0x1_0000_0000 && forall i :: 0 <= i < |native| && !native[i].Other? ==> native[i].groups != []
  }

  /** What the operating system says about the calling process. */
  datatype Access = Access(processMask: u64, primaryGroup: u16, groups: seq<u16>)

  // The result as functions of the records.

  function CoresOf(native: seq<Record>): seq<seq<GroupMask>> {
    if native == [] then []
    else CoresOf(native[..|native| - 1]) + if native[|native| - 1].Core? then [native[|native| - 1].groups] else []
  }

  function PackagesOf(native: seq<Record>): seq<seq<GroupMask>> {
    if native == [] then []
    else PackagesOf(native[..|native| - 1]) + if native[|native| - 1].Package? then [native[|native| - 1].groups] else []
  }

  ghost predicate NonEmpty(recs: seq<seq<GroupMask>>) {
    forall i :: 0 <= i < |recs| ==> recs[i] != []
  }

  /** Ids in order of first appearance of the records' first masks. */
  function IdTable(recs: seq<seq<GroupMask>>): (t: map<GroupMask, nat>)
    requires NonEmpty(recs)
    ensures |t| <= |recs|
    ensures forall key :: key in t ==> t[key] < |t|
    ensures forall i :: 0 <= i < |recs| ==> recs[i][0] in t
  {
    if recs == [] then map[]
    else
      var t := IdTable(recs[..|recs| - 1]);
      var key := recs[|recs| - 1][0];
      if key in t then t else t[key := |t|]
  }

  /** May the process use this logical processor? */
  predicate Usable(access: Access, group: u16, bitmask: nat) {
    group in access.groups && (group == access.primaryGroup ==> And(bitmask, access.processMask) != 0)
  }

  /** The processors for the set bits below n of one group mask. */
  function BitProcs(id: u32, gm: GroupMask, access: Access, n: nat): Procs
    requires n <= 64
  {
    if n == 0 then []
    else BitProcs(id, gm, access, n - 1) + if Bit(gm.mask, n - 1) then [BitProc(id, gm.group, access, n - 1)] else []
  }

  function BitProc(id: u32, group: u16, access: Access, b: nat): LogicalProcessor
    requires b < 64
  {
    BitmaskFits(b);
    LogicalProcessor(U32_MAX, id, U16_MAX, Usable(access, group, Pow2(b)), GroupMask(group, Pow2(b)))
  }

  lemma BitmaskFits(b: nat)
    requires b < 64
    ensures Pow2(b) < U64_LIMIT
  {
    Pow2Monotone(b + 1, 64);
    Pow2Constants();
  }

  function GroupProcs(id: u32, groups: seq<GroupMask>, access: Access, n: nat): Procs
    requires n <= |groups|
  {
    if n == 0 then [] else GroupProcs(id, groups, access, n - 1) + BitProcs(id, groups[n - 1], access, 64)
  }

  /** The processors of the first n core records. */
  function CoreProcs(cores: seq<seq<GroupMask>>, access: Access, n: nat): Procs
    requires NonEmpty(cores) && n <= |cores| < 0x1_0000_0000
  {
    if n == 0 then []
    else CoreProcs(cores, access, n - 1) + GroupProcs(IdTable(cores)[cores[n - 1][0]], cores[n - 1], access, |cores[n - 1]|)
  }

  /** GroupPair == NativeAffinityMask: same group, common bits. */
  predicate Matches(gm: GroupMask, affinity: GroupMask) {
    gm.group == affinity.group && And(gm.mask, affinity.mask) != 0
  }

  predicate Covers(groups: seq<GroupMask>, affinity: GroupMask) {
    exists g :: 0 <= g < |groups| && Matches(groups[g], affinity)
  }

  /** The package id after the first n package records: the last match wins. */
  function PackageId(packages: seq<seq<GroupMask>>, n: nat, p: LogicalProcessor): u16
    requires NonEmpty(packages) && n <= |packages|
  {
    if n == 0 then p.pkgID
    else if Covers(packages[n - 1], p.affinity) then IdTable(packages)[packages[n - 1][0]] % 0x1_0000
    else PackageId(packages, n - 1, p)
  }

  ghost predicate HavePackages(before: Procs, after: Procs, packages: seq<seq<GroupMask>>, n: nat)
    requires NonEmpty(packages) && n <= |packages|
  {
    |after| == |before|
    && forall i :: 0 <= i < |before| ==> after[i] == before[i].(pkgID := PackageId(packages, n, before[i]))
  }

  ghost predicate HaveGlobalIds(before: Procs, after: Procs) {
    |after| == |before| && forall i :: 0 <= i < |before| ==> after[i] == before[i].(globalID := i % 0x1_0000_0000)
  }

  /** The processor table with its counts; accessors report UINT32_MAX for an empty table. */
  class ProcessorConfigurationVector {
    var proc: Procs
    var threadCount: u32
    var physicalCoreCount: u32
    var corePackageCount: u16

    constructor ()
      ensures proc == []
    {
      proc := [];
      threadCount, physicalCoreCount, corePackageCount := *, *, *;
    }

    function PhysicalCoreCount(): u32
      reads this
    {
      if proc == [] then U32_MAX else physicalCoreCount
    }

    function LogicalCoreCount(): u32
      reads this
    {
      if proc == [] then U32_MAX else threadCount
    }

    function PackageCount(): u32
      reads this
    {
      if proc == [] then U32_MAX else corePackageCount
    }

    method Copy(other: ProcessorConfigurationVector)
      modifies this
      ensures proc == old(other.proc) && threadCount == old(other.threadCount)
      ensures physicalCoreCount == old(other.physicalCoreCount) && corePackageCount == old(other.corePackageCount)
    {
      if this == other {
        return;
      }
      proc := other.proc;
      threadCount := other.threadCount;
      physicalCoreCount := other.physicalCoreCount;
      corePackageCount := other.corePackageCount;
    }

    method Destroy()
      modifies this
      ensures proc == []
    {
      proc := [];
    }

    /** getPhysicalCoreThreadAffinity: appends the masks of the core's threads. */
    method GetPhysicalCoreThreadAffinity(coreID: u32, threadMasks: seq<GroupMask>) returns (out: seq<GroupMask>)
      ensures out == threadMasks + if proc == [] || coreID > proc[|proc| - 1].coreID then [] else AffinitiesOf(proc, coreID)
    {
      out := threadMasks;
      if proc == [] || coreID > proc[|proc| - 1].coreID {
        return;
      }
      for i := 0 to |proc|
        invariant out == threadMasks + AffinitiesOf(proc[..i], coreID)
      {
        assert proc[..i + 1][..i] == proc[..i];
        if coreID != proc[i].coreID {
          continue;
        }
        out := out + [proc[i].affinity];
      }
      assert proc[..|proc|] == proc;
    }

    /** initialize: discard the table and read the current configuration. */
    method Initialize(native: Option<seq<Record>>, access: Option<Access>) returns (ok: bool)
      requires native.Some? ==> WellFormed(native.value)
      modifies this
      ensures ok <==> native.Some? && access.Some?
      ensures !ok ==> proc == []
      ensures ok ==> Describes(this, native.value, access.value)
    {
      proc := [];
      ok := ProcessCurrentConfiguration(native, access);
    }

    /** The Windows ProcessCurrentConfiguration; a None argument is a failed system call. */
    method ProcessCurrentConfiguration(native: Option<seq<Record>>, access: Option<Access>) returns (ok: bool)
      requires native.Some? ==> WellFormed(native.value)
      requires proc == []
      modifies this
      ensures ok <==> native.Some? && access.Some?
      ensures !ok ==> proc == []
      ensures ok ==> Describes(this, native.value, access.value)
    {
      if native.None? || access.None? {
        return false;
      }
      RecordsWellFormed(native.value);
      var cores, coreMap, nextCoreId, packages, packageMap, nextPackageId := CollectRecords(native.value);
      ExpandCores(cores, coreMap, access.value);
      AssignPackages(packages, packageMap);
      NumberProcessors();
      threadCount := |proc| % 0x1_0000_0000;
      physicalCoreCount := nextCoreId % 0x1_0000_0000;
      corePackageCount := nextPackageId % 0x1_0000;
      return true;
    }

    /** The last pass: the global id of a processor is its position. */
    method NumberProcessors()
      modifies this`proc
      ensures HaveGlobalIds(old(proc), proc)
    {
      var i := 0;
      while i < |proc|
        invariant 0 <= i <= |proc| == |old(proc)|
        invariant forall k :: 0 <= k < i ==> proc[k] == old(proc)[k].(globalID := k % 0x1_0000_0000)
        invariant forall k :: i <= k < |proc| ==> proc[k] == old(proc)[k]
      {
        proc := proc[i := proc[i].(globalID := i % 0x1_0000_0000)];
        i := i + 1;
      }
    }

    /** The pass over the package records. */
    method AssignPackages(packages: seq<seq<GroupMask>>, packageMap: map<GroupMask, nat>)
      requires NonEmpty(packages) && packageMap == IdTable(packages)
      modifies this`proc
      ensures HavePackages(old(proc), proc, packages, |packages|)
    {
      ghost var bare := proc;
      var n := 0;
      while n < |packages|
        invariant 0 <= n <= |packages|
        invariant HavePackages(bare, proc, packages, n)
      {
        AssignPackage(bare, packages, n, packageMap);
        n := n + 1;
      }
    }

    /** The pass over the records: cores and packages get ids by their first group mask. */
    static method CollectRecords(native: seq<Record>)
        returns (cores: seq<seq<GroupMask>>, coreMap: map<GroupMask, nat>, nextCoreId: nat,
                 packages: seq<seq<GroupMask>>, packageMap: map<GroupMask, nat>, nextPackageId: nat)
      requires WellFormed(native)
      ensures cores == CoresOf(native) && NonEmpty(cores) && coreMap == IdTable(cores) && nextCoreId == |coreMap|
      ensures packages == PackagesOf(native) && NonEmpty(packages)
      ensures packageMap == IdTable(packages) && nextPackageId == |packageMap|
    {
      cores, coreMap, nextCoreId := [], map[], 0;
      packages, packageMap, nextPackageId := [], map[], 0;
      for j := 0 to |native|
        invariant cores == CoresOf(native[..j]) && NonEmpty(cores) && coreMap == IdTable(cores) && nextCoreId == |coreMap|
        invariant packages == PackagesOf(native[..j]) && NonEmpty(packages)
        invariant packageMap == IdTable(packages) && nextPackageId == |packageMap|
      {
        assert native[..j + 1][..j] == native[..j];
        if native[j].Core? {
          var key := native[j].groups[0];
          TableStep(cores, native[j].groups);
          cores := cores + [native[j].groups];
          if key !in coreMap {
            coreMap := coreMap[key := nextCoreId];
            nextCoreId := nextCoreId + 1;
          }
        } else if native[j].Package? {
          var key := native[j].groups[0];
          TableStep(packages, native[j].groups);
          packages := packages + [native[j].groups];
          if key !in packageMap {
            packageMap := packageMap[key := nextPackageId];
            nextPackageId := nextPackageId + 1;
          }
        }
      }
      assert native[..|native|] == native;
    }

    /** The pass that pushes one processor for every set bit of every core record. */
    method ExpandCores(cores: seq<seq<GroupMask>>, coreMap: map<GroupMask, nat>, access: Access)
      requires NonEmpty(cores) && |cores| < 0x1_0000_0000 && coreMap == IdTable(cores) && proc == []
      modifies this`proc
      ensures proc == CoreProcs(cores, access, |cores|)
    {
      for c := 0 to |cores|
        invariant proc == CoreProcs(cores, access, c)
      {
        var id := coreMap[cores[c][0]];
        ghost var before := proc;
        for g := 0 to |cores[c]|
          invariant proc == before + GroupProcs(id, cores[c], access, g)
        {
          ghost var base := proc;
          for bit := 0 to 64
            invariant proc == base + BitProcs(id, cores[c][g], access, bit)
          {
            AndPow2(cores[c][g].mask, bit);
            if And(cores[c][g].mask, Pow2(bit)) == 0 {
              continue;
            }
            proc := proc + [BitProc(id, cores[c][g].group, access, bit)];
          }
        }
      }
    }

    /** One package record: its id goes to every processor that it covers. */
    method AssignPackage(ghost bare: Procs, packages: seq<seq<GroupMask>>, n: nat, packageMap: map<GroupMask, nat>)
      requires NonEmpty(packages) && n < |packages| && packageMap == IdTable(packages)
      requires HavePackages(bare, proc, packages, n)
      modifies this`proc
      ensures HavePackages(bare, proc, packages, n + 1)
    {
      var pkgId := packageMap[packages[n][0]] % 0x1_0000;
      var i := 0;
      while i < |proc|
        invariant 0 <= i <= |proc| == |bare|
        invariant forall k :: 0 <= k < i ==> proc[k] == bare[k].(pkgID := PackageId(packages, n + 1, bare[k]))
        invariant forall k :: i <= k < |proc| ==> proc[k] == bare[k].(pkgID := PackageId(packages, n, bare[k]))
      {
        var covered := false;
        for g := 0 to |packages[n]|
          invariant covered <==> exists h :: 0 <= h < g && Matches(packages[n][h], bare[i].affinity)
        {
          covered := covered || Matches(packages[n][g], proc[i].affinity);
        }
        proc := proc[i := proc[i].(pkgID := if covered then pkgId else proc[i].pkgID)];
        i := i + 1;
      }
    }
  }

  function AffinitiesOf(procs: Procs, coreID: u32): seq<GroupMask> {
    if procs == [] then []
    else
      var last := procs[|procs| - 1];
      AffinitiesOf(procs[..|procs| - 1], coreID) + if last.coreID == coreID then [last.affinity] else []
  }

  /** The table after a successful ProcessCurrentConfiguration. */
  ghost predicate Describes(v: ProcessorConfigurationVector, native: seq<Record>, access: Access)
    reads v
  {
    var cores, packages := CoresOf(native), PackagesOf(native);
    NonEmpty(cores) && NonEmpty(packages) && |cores| < 0x1_0000_0000
    && (exists packaged ::
        HavePackages(CoreProcs(cores, access, |cores|), packaged, packages, |packages|) && HaveGlobalIds(packaged, v.proc))
    && HasCounts(v, cores, packages)
  }

  ghost predicate HasCounts(v: ProcessorConfigurationVector, cores: seq<seq<GroupMask>>, packages: seq<seq<GroupMask>>)
    requires NonEmpty(cores) && NonEmpty(packages)
    reads v
  {
    && v.threadCount == |v.proc| % 0x1_0000_0000
    && v.physicalCoreCount == |IdTable(cores)| % 0x1_0000_0000
    && v.corePackageCount == |IdTable(packages)| % 0x1_0000
  }

  lemma {:induction false} RecordsWellFormed(native: seq<Record>)
    requires WellFormed(native)
    ensures NonEmpty(CoresOf(native)) && NonEmpty(PackagesOf(native))
    ensures |CoresOf(native)| <= |native| && |PackagesOf(native)| <= |native|
  {
    if native != [] {
      RecordsWellFormed(native[..|native| - 1]);
    }
  }

  lemma TableStep(recs: seq<seq<GroupMask>>, groups: seq<GroupMask>)
    requires NonEmpty(recs) && groups != []
    ensures NonEmpty(recs + [groups])
    ensures IdTable(recs + [groups]) ==
      if groups[0] in IdTable(recs) then IdTable(recs) else IdTable(recs)[groups[0] := |IdTable(recs)|]
  {
    assert (recs + [groups])[..|recs|] == recs;
  }

  // Which records describe no thread at all.

  /** No core record has a set mask bit. */
  predicate NoThreads(native: seq<Record>) {
    forall i :: 0 <= i < |native| && native[i].Core? ==> NoBits(native[i].groups)
  }

  predicate NoBits(groups: seq<GroupMask>) {
    forall g :: 0 <= g < |groups| ==> groups[g].mask == 0
  }

  lemma SomeBit(x: u64) returns (b: nat)
    requires x != 0
    ensures b < 64 && Bit(x, b)
  {
    Pow2Constants();
    b := SomeBitBelow(x, 64);
  }

  lemma {:induction false} SomeBitBelow(x: nat, n: nat) returns (b: nat)
    requires 0 < x < Pow2(n)
    ensures b < n && Bit(x, b)
  {
    if x % 2 == 1 {
      b := 0;
    } else {
      b := SomeBitBelow(x / 2, n - 1);
      b := b + 1;
    }
  }

  ghost predicate NoBitBelow(x: nat, n: nat) {
    forall b: nat :: b < n ==> !Bit(x, b)
  }

  lemma {:induction false} BitProcsEmpty(id: u32, gm: GroupMask, access: Access, n: nat)
    requires n <= 64
    ensures BitProcs(id, gm, access, n) == [] <==> NoBitBelow(gm.mask, n)
  {
    if n > 0 {
      BitProcsEmpty(id, gm, access, n - 1);
      assert NoBitBelow(gm.mask, n) <==> NoBitBelow(gm.mask, n - 1) && !Bit(gm.mask, n - 1);
      var one := if Bit(gm.mask, n - 1) then [BitProc(id, gm.group, access, n - 1)] else [];
      assert BitProcs(id, gm, access, n) == BitProcs(id, gm, access, n - 1) + one;
    }
  }

  lemma MaskEmpty(id: u32, gm: GroupMask, access: Access)
    ensures BitProcs(id, gm, access, 64) == [] <==> gm.mask == 0
  {
    BitProcsEmpty(id, gm, access, 64);
    if gm.mask == 0 {
      forall b: nat | b < 64
        ensures !Bit(gm.mask, b)
      {
        ZeroBits(b);
      }
      assert NoBitBelow(gm.mask, 64);
    } else {
      var b := SomeBit(gm.mask);
    }
  }

  lemma {:induction false} GroupProcsEmpty(id: u32, groups: seq<GroupMask>, access: Access, n: nat)
    requires n <= |groups|
    ensures GroupProcs(id, groups, access, n) == [] <==> NoBits(groups[..n])
  {
    if n > 0 {
      GroupProcsEmpty(id, groups, access, n - 1);
      MaskEmpty(id, groups[n - 1], access);
      assert groups[..n] == groups[..n - 1] + [groups[n - 1]];
    }
  }

  lemma {:induction false} CoreProcsEmpty(cores: seq<seq<GroupMask>>, access: Access, n: nat)
    requires NonEmpty(cores) && n <= |cores| < 0x1_0000_0000
    ensures CoreProcs(cores, access, n) == [] <==> forall c :: 0 <= c < n ==> NoBits(cores[c])
  {
    if n > 0 {
      CoreProcsEmpty(cores, access, n - 1);
      GroupProcsEmpty(IdTable(cores)[cores[n - 1][0]], cores[n - 1], access, |cores[n - 1]|);
      assert cores[n - 1][..|cores[n - 1]|] == cores[n - 1];
    }
  }

  ghost predicate NoneHasBits(cores: seq<seq<GroupMask>>) {
    forall c :: 0 <= c < |cores| ==> NoBits(cores[c])
  }

  lemma OneMoreWithoutBits(cores: seq<seq<GroupMask>>, groups: seq<GroupMask>)
    ensures NoneHasBits(cores + [groups]) <==> NoneHasBits(cores) && NoBits(groups)
  {
    assert (cores + [groups])[|cores|] == groups;
    assert (cores + [groups])[..|cores|] == cores;
    if NoneHasBits(cores + [groups]) {
      forall c | 0 <= c < |cores|
        ensures NoBits(cores[c])
      {
        assert (cores + [groups])[c] == cores[c];
      }
    }
  }

  lemma {:induction false} CoresWithoutThreads(native: seq<Record>)
    ensures NoThreads(native) <==> NoneHasBits(CoresOf(native))
  {
    if native != [] {
      var init, last := native[..|native| - 1], native[|native| - 1];
      CoresWithoutThreads(init);
      assert NoThreads(native) <==> NoThreads(init) && (last.Core? ==> NoBits(last.groups)) by {
        assert native == init + [last];
      }
      if last.Core? {
        OneMoreWithoutBits(CoresOf(init), last.groups);
        assert CoresOf(native) == CoresOf(init) + [last.groups];
      } else {
        assert CoresOf(native) == CoresOf(init);
      }
    }
  }

  /** The table is empty exactly when no core record has a thread. */
  lemma TableIsEmpty(v: ProcessorConfigurationVector, native: seq<Record>, access: Access)
    requires Describes(v, native, access)
    ensures v.proc == [] <==> NoThreads(native)
  {
    var cores, packages := CoresOf(native), PackagesOf(native);
    var packaged :| HavePackages(CoreProcs(cores, access, |cores|), packaged, packages, |packages|) && HaveGlobalIds(packaged, v.proc);
    assert |v.proc| == |CoreProcs(cores, access, |cores|)|;
    CoreProcsEmpty(cores, access, |cores|);
    CoresWithoutThreads(native);
  }
}
