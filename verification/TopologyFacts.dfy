/**
 What the topology pass establishes for regular hardware, and that this is what the
 thread manager needs.
 */
module TopologyFacts {
  import opened Machine
  import opened Bits
  import opened Processors
  import opened ThreadPool
  import opened Topology
  import opened TopologyEntries
  import opened Wrappers
  import opened ThreadManager

  /** The affinity of bit b of a core's group mask. */
  function BitAffinity(gm: GroupMask, b: nat): GroupMask
    requires b < 64
  {
    BitmaskFits(b);
    GroupMask(gm.group, Pow2(b))
  }

  /** A package record covers every thread of the core. */
  ghost predicate Owns(groups: seq<GroupMask>, gm: GroupMask) {
    forall b: nat :: b < 64 && Bit(gm.mask, b) ==> HasBit(groups, gm.group, b)
  }

  /** A package record covers no thread of the core. */
  ghost predicate Avoids(groups: seq<GroupMask>, gm: GroupMask) {
    forall b: nat :: b < 64 && Bit(gm.mask, b) ==> !HasBit(groups, gm.group, b)
  }

  /** Cores are single-group and nonempty. */
  ghost predicate SingleGroup(cores: seq<seq<GroupMask>>) {
    forall c :: 0 <= c < |cores| ==> |cores[c]| == 1 && cores[c][0].mask != 0
  }

  ghost predicate Overlap(x: GroupMask, y: GroupMask) {
    x.group == y.group && exists b: nat :: b < 64 && Bit(x.mask, b) && Bit(y.mask, b)
  }

  ghost predicate PairwiseDisjoint(cores: seq<seq<GroupMask>>)
    requires SingleGroup(cores)
  {
    forall c, d :: 0 <= c < d < |cores| ==> !Overlap(cores[c][0], cores[d][0])
  }

  ghost predicate OwnedBy(packages: seq<seq<GroupMask>>, gm: GroupMask, k: nat) {
    k < |packages| && Owns(packages[k], gm) && forall other :: 0 <= other < |packages| && other != k ==> Avoids(packages[other], gm)
  }

  /** Pairwise disjoint nonempty single-group cores, each covered by exactly one package. */
  ghost predicate Regular(cores: seq<seq<GroupMask>>, packages: seq<seq<GroupMask>>) {
    && SingleGroup(cores) && PairwiseDisjoint(cores)
    && forall c :: 0 <= c < |cores| ==> exists k :: OwnedBy(packages, cores[c][0], k)
  }

  // One core.

  function CountBits(x: nat, n: nat): nat {
    if n == 0 then 0 else CountBits(x, n - 1) + if Bit(x, n - 1) then 1 else 0
  }

  lemma {:induction false} CountBitsHalf(x: nat, n: nat)
    requires n > 0
    ensures CountBits(x, n) == x % 2 + CountBits(x / 2, n - 1)
  {
    if n > 1 {
      CountBitsHalf(x, n - 1);
    }
  }

  lemma {:induction false} CountBitsIsPopCount(x: nat, n: nat)
    requires x < Pow2(n)
    ensures CountBits(x, n) == PopCount(x)
  {
    if n > 0 {
      CountBitsHalf(x, n);
      CountBitsIsPopCount(x / 2, n - 1);
    }
  }

  /** p is the thread for some set bit of the mask. */
  ghost predicate FromMask(p: LogicalProcessor, gm: GroupMask, n: nat) {
    exists b: nat :: b < n && b < 64 && Bit(gm.mask, b) && p.affinity == BitAffinity(gm, b)
  }

  ghost predicate DistinctAffinities(procs: Procs) {
    forall i, j :: 0 <= i < j < |procs| ==> procs[i].affinity != procs[j].affinity
  }

  lemma {:induction false} BitProcsFacts(id: u32, gm: GroupMask, access: Access, n: nat)
    requires n <= 64
    ensures var r := BitProcs(id, gm, access, n);
      && |r| == CountBits(gm.mask, n)
      && (forall p :: p in r ==> p.coreID == id && p.pkgID == U16_MAX && FromMask(p, gm, n))
      && DistinctAffinities(r)
  {
    if n > 0 {
      BitProcsFacts(id, gm, access, n - 1);
      var r := BitProcs(id, gm, access, n - 1);
      if Bit(gm.mask, n - 1) {
        var last := BitProc(id, gm.group, access, n - 1);
        assert last.affinity == BitAffinity(gm, n - 1);
        assert FromMask(last, gm, n);
        forall p | p in r
          ensures p.affinity != last.affinity && FromMask(p, gm, n)
        {
          var b: nat :| b < n - 1 && b < 64 && Bit(gm.mask, b) && p.affinity == BitAffinity(gm, b);
          if Pow2(b) == Pow2(n - 1) {
            Pow2Injective(b, n - 1);
          }
        }
      } else {
        forall p | p in r
          ensures FromMask(p, gm, n)
        {
          var b: nat :| b < n - 1 && b < 64 && Bit(gm.mask, b) && p.affinity == BitAffinity(gm, b);
        }
      }
    }
  }

  // All cores.

  ghost predicate FirstsDiffer(recs: seq<seq<GroupMask>>)
    requires NonEmpty(recs)
  {
    forall i, j :: 0 <= i < j < |recs| ==> recs[i][0] != recs[j][0]
  }

  ghost predicate IsFirst(recs: seq<seq<GroupMask>>, key: GroupMask)
    requires NonEmpty(recs)
  {
    exists i :: 0 <= i < |recs| && recs[i][0] == key
  }

  lemma {:induction false} KeysAreFirsts(recs: seq<seq<GroupMask>>, key: GroupMask)
    requires NonEmpty(recs) && key in IdTable(recs)
    ensures IsFirst(recs, key)
  {
    var init := recs[..|recs| - 1];
    if key in IdTable(init) {
      KeysAreFirsts(init, key);
      var i :| 0 <= i < |init| && init[i][0] == key;
      assert recs[i][0] == key;
    }
  }

  lemma {:induction false} IdsArePositions(recs: seq<seq<GroupMask>>)
    requires NonEmpty(recs) && FirstsDiffer(recs)
    ensures |IdTable(recs)| == |recs|
    ensures forall i :: 0 <= i < |recs| ==> IdTable(recs)[recs[i][0]] == i
  {
    if recs != [] {
      var init, key := recs[..|recs| - 1], recs[|recs| - 1][0];
      IdsArePositions(init);
      if key in IdTable(init) {
        KeysAreFirsts(init, key);
      }
    }
  }

  lemma DisjointCoresDiffer(cores: seq<seq<GroupMask>>)
    requires SingleGroup(cores) && PairwiseDisjoint(cores)
    ensures NonEmpty(cores) && FirstsDiffer(cores)
  {
    forall i, j | 0 <= i < j < |cores|
      ensures cores[i][0] != cores[j][0]
    {
      var b := SomeBit(cores[i][0].mask);
      assert Bit(cores[i][0].mask, b);
      if cores[i][0] == cores[j][0] {
        assert Overlap(cores[i][0], cores[j][0]);
      }
    }
  }

  function TotalBits(cores: seq<seq<GroupMask>>, n: nat): nat
    requires n <= |cores| && forall c :: 0 <= c < |cores| ==> cores[c] != []
  {
    if n == 0 then 0 else TotalBits(cores, n - 1) + PopCount(cores[n - 1][0].mask)
  }

  /** p is a thread of the core whose number it carries. */
  ghost predicate FromCore(p: LogicalProcessor, cores: seq<seq<GroupMask>>, n: nat)
    requires SingleGroup(cores) && n <= |cores|
  {
    p.coreID < n && FromMask(p, cores[p.coreID][0], 64)
  }

  ghost predicate AllFromCores(procs: Procs, cores: seq<seq<GroupMask>>, n: nat)
    requires SingleGroup(cores) && n <= |cores|
  {
    forall p :: p in procs ==> FromCore(p, cores, n)
  }

  ghost predicate Ascending(procs: Procs) {
    forall i, j :: 0 <= i < j < |procs| ==> procs[i].coreID <= procs[j].coreID
  }

  ghost predicate HasCore(procs: Procs, c: nat) {
    exists i :: 0 <= i < |procs| && procs[i].coreID == c
  }

  ghost predicate Dense(procs: Procs, n: nat) {
    forall c: nat :: c < n ==> HasCore(procs, c)
  }

  lemma OneCore(cores: seq<seq<GroupMask>>, access: Access, n: nat)
    requires SingleGroup(cores) && PairwiseDisjoint(cores) && n < |cores| < 0x1_0000_0000
    ensures NonEmpty(cores)
    ensures CoreProcs(cores, access, n + 1) == CoreProcs(cores, access, n) + BitProcs(n, cores[n][0], access, 64)
  {
    DisjointCoresDiffer(cores);
    IdsArePositions(cores);
    var id := IdTable(cores)[cores[n][0]];
    assert GroupProcs(id, cores[n], access, 1) == GroupProcs(id, cores[n], access, 0) + BitProcs(id, cores[n][0], access, 64);
  }

  lemma DifferentCores(p: LogicalProcessor, q: LogicalProcessor, x: GroupMask, y: GroupMask)
    requires !Overlap(x, y) && FromMask(p, x, 64) && FromMask(q, y, 64)
    ensures p.affinity != q.affinity
  {
    var a: nat :| a < 64 && Bit(x.mask, a) && p.affinity == BitAffinity(x, a);
    var b: nat :| b < 64 && Bit(y.mask, b) && q.affinity == BitAffinity(y, b);
    if Pow2(a) == Pow2(b) {
      Pow2Injective(a, b);
    }
  }

  lemma JoinAffinities(s: Procs, t: Procs)
    requires DistinctAffinities(s) && DistinctAffinities(t)
    requires forall p, q :: p in s && q in t ==> p.affinity != q.affinity
    ensures DistinctAffinities(s + t)
  {
    forall i, j | 0 <= i < j < |s + t|
      ensures (s + t)[i].affinity != (s + t)[j].affinity
    {
      if i < |s| && j >= |s| {
        assert s[i] in s && t[j - |s|] in t;
      }
    }
  }

  lemma JoinCores(s: Procs, t: Procs, n: nat)
    requires Ascending(s) && Dense(s, n) && t != []
    requires (forall p :: p in s ==> p.coreID < n) && forall p :: p in t ==> p.coreID == n
    ensures Ascending(s + t) && Dense(s + t, n + 1)
  {
    forall i, j | 0 <= i < j < |s + t|
      ensures (s + t)[i].coreID <= (s + t)[j].coreID
    {
      if i < |s| {
        assert s[i] in s;
      }
      if j >= |s| {
        assert t[j - |s|] in t;
      }
      if i >= |s| {
        assert t[i - |s|] in t;
      }
    }
    forall c: nat | c < n + 1
      ensures HasCore(s + t, c)
    {
      if c < n {
        assert HasCore(s, c);
        var i :| 0 <= i < |s| && s[i].coreID == c;
        assert (s + t)[i].coreID == c;
      } else {
        assert t[0] in t;
        assert (s + t)[|s|].coreID == c;
      }
    }
  }

  /** The number of processors with core number c. */
  function CountCore(procs: Procs, c: nat): nat {
    if procs == [] then 0
    else CountCore(procs[..|procs| - 1], c) + if procs[|procs| - 1].coreID == c then 1 else 0
  }

  lemma {:induction false} CountAppend(s: Procs, t: Procs, c: nat)
    ensures CountCore(s + t, c) == CountCore(s, c) + CountCore(t, c)
  {
    if t == [] {
      assert s + t == s;
    } else {
      assert (s + t)[..|s + t| - 1] == s + t[..|t| - 1];
      CountAppend(s, t[..|t| - 1], c);
    }
  }

  lemma {:induction false} CountOfOneCore(t: Procs, id: nat, c: nat)
    requires forall p :: p in t ==> p.coreID == id
    ensures CountCore(t, c) == if c == id then |t| else 0
  {
    if t != [] {
      CountOfOneCore(t[..|t| - 1], id, c);
      assert t[|t| - 1] in t;
    }
  }

  lemma {:induction false} CountOfOthers(s: Procs, c: nat)
    requires forall p :: p in s ==> p.coreID != c
    ensures CountCore(s, c) == 0
  {
    if s != [] {
      CountOfOthers(s[..|s| - 1], c);
      assert s[|s| - 1] in s;
    }
  }

  lemma {:induction false} CountOfSame(s: Procs, t: Procs, c: nat)
    requires |s| == |t| && forall i :: 0 <= i < |s| ==> s[i].coreID == t[i].coreID
    ensures CountCore(s, c) == CountCore(t, c)
  {
    if s != [] {
      CountOfSame(s[..|s| - 1], t[..|t| - 1], c);
    }
  }

  /** Each of the first n cores has as many processors as its mask has bits. */
  ghost predicate SizesMatch(procs: Procs, cores: seq<seq<GroupMask>>, n: nat)
    requires SingleGroup(cores) && n <= |cores|
  {
    forall c: nat :: c < n ==> CountCore(procs, c) == PopCount(cores[c][0].mask)
  }

  lemma JoinSizes(s: Procs, t: Procs, cores: seq<seq<GroupMask>>, n: nat)
    requires SingleGroup(cores) && n < |cores| && SizesMatch(s, cores, n) && |t| == PopCount(cores[n][0].mask)
    requires (forall p :: p in s ==> p.coreID < n) && forall p :: p in t ==> p.coreID == n
    ensures SizesMatch(s + t, cores, n + 1)
  {
    forall c: nat | c < n + 1
      ensures CountCore(s + t, c) == PopCount(cores[c][0].mask)
    {
      CountAppend(s, t, c);
      CountOfOneCore(t, n, c);
      if c == n {
        CountOfOthers(s, c);
      }
    }
  }

  /** The processors of the first n cores. */
  ghost predicate GoodCores(r: Procs, cores: seq<seq<GroupMask>>, n: nat)
    requires SingleGroup(cores) && n <= |cores|
  {
    && |r| == TotalBits(cores, n) && AllFromCores(r, cores, n) && DistinctAffinities(r) && Ascending(r) && Dense(r, n)
    && (forall p :: p in r ==> p.pkgID == U16_MAX)
    && SizesMatch(r, cores, n)
  }

  lemma ThreadsOfMask(id: u32, gm: GroupMask, access: Access)
    ensures var t := BitProcs(id, gm, access, 64);
      OfCore(t, gm, id) && DistinctAffinities(t) && |t| == PopCount(gm.mask)
  {
    BitProcsFacts(id, gm, access, 64);
    Pow2Constants();
    CountBitsIsPopCount(gm.mask, 64);
  }

  lemma {:induction false} CoreProcsFacts(cores: seq<seq<GroupMask>>, access: Access, n: nat)
    requires SingleGroup(cores) && PairwiseDisjoint(cores) && n <= |cores| < 0x1_0000_0000
    ensures NonEmpty(cores) && GoodCores(CoreProcs(cores, access, n), cores, n)
  {
    if n > 0 {
      CoreProcsFacts(cores, access, n - 1);
      OneCore(cores, access, n - 1);
      NextCoreIsGood(CoreProcs(cores, access, n - 1), cores, access, n);
    }
  }

  lemma NextCoreIsGood(s: Procs, cores: seq<seq<GroupMask>>, access: Access, n: nat)
    requires SingleGroup(cores) && PairwiseDisjoint(cores) && 0 < n <= |cores| < 0x1_0000_0000 && GoodCores(s, cores, n - 1)
    ensures GoodCores(s + BitProcs(n - 1, cores[n - 1][0], access, 64), cores, n)
  {
    ThreadsOfMask(n - 1, cores[n - 1][0], access);
    AddCore(s, BitProcs(n - 1, cores[n - 1][0], access, 64), cores, n);
  }

  ghost predicate OfCore(t: Procs, gm: GroupMask, id: nat) {
    forall p :: p in t ==> p.coreID == id && p.pkgID == U16_MAX && FromMask(p, gm, 64)
  }

  lemma AddCore(s: Procs, t: Procs, cores: seq<seq<GroupMask>>, n: nat)
    requires SingleGroup(cores) && PairwiseDisjoint(cores) && 0 < n <= |cores| && GoodCores(s, cores, n - 1)
    requires OfCore(t, cores[n - 1][0], n - 1) && DistinctAffinities(t) && |t| == PopCount(cores[n - 1][0].mask)
    ensures GoodCores(s + t, cores, n)
  {
    PopCountPositive(cores[n - 1][0].mask);
    forall p, q | p in s && q in t
      ensures p.affinity != q.affinity
    {
      assert FromCore(p, cores, n - 1);
      DifferentCores(p, q, cores[p.coreID][0], cores[n - 1][0]);
    }
    JoinAffinities(s, t);
    forall p | p in s
      ensures p.coreID < n - 1 && FromCore(p, cores, n)
    {
      assert FromCore(p, cores, n - 1);
    }
    JoinCores(s, t, n - 1);
    JoinSizes(s, t, cores, n - 1);
  }

  // Packages.

  /** With one owner, the package pass gives every thread of a core the owner's id. */
  lemma {:induction false} OwnerDecides(packages: seq<seq<GroupMask>>, gm: GroupMask, k: nat, n: nat, p: LogicalProcessor)
    requires NonEmpty(packages) && OwnedBy(packages, gm, k) && n <= |packages| && FromMask(p, gm, 64)
    ensures PackageId(packages, n, p) == if k < n then IdTable(packages)[packages[k][0]] % 0x1_0000 else p.pkgID
  {
    if n > 0 {
      OwnerDecides(packages, gm, k, n - 1, p);
      OwnerCovers(packages, gm, k, n - 1, p);
    }
  }

  /** A package record covers a thread of the core exactly when it is the owner's. */
  lemma OwnerCovers(packages: seq<seq<GroupMask>>, gm: GroupMask, k: nat, other: nat, p: LogicalProcessor)
    requires OwnedBy(packages, gm, k) && other < |packages| && FromMask(p, gm, 64)
    ensures Covers(packages[other], p.affinity) <==> other == k
  {
    var b: nat :| b < 64 && Bit(gm.mask, b) && p.affinity == BitAffinity(gm, b);
    CoversOnBits(packages[other], p.affinity, b);
    if other != k {
      assert Avoids(packages[other], gm);
    }
  }

  /** p is in exactly one package record, and carries that record's number. */
  ghost predicate InItsPackage(p: LogicalProcessor, packages: seq<seq<GroupMask>>)
    requires NonEmpty(packages)
  {
    exists k: nat :: OnlyIn(packages, p.affinity, k) && p.pkgID == RecordNumber(packages, k) % 0x1_0000
  }

  ghost predicate OnlyIn(packages: seq<seq<GroupMask>>, affinity: GroupMask, k: nat) {
    && k < |packages| && Contains(packages[k], affinity)
    && forall other :: 0 <= other < |packages| && other != k ==> !Contains(packages[other], affinity)
  }

  lemma OwnerIsOnly(packages: seq<seq<GroupMask>>, gm: GroupMask, k: nat, p: LogicalProcessor)
    requires OwnedBy(packages, gm, k) && FromMask(p, gm, 64)
    ensures OnlyIn(packages, p.affinity, k)
  {
    var b: nat :| b < 64 && Bit(gm.mask, b) && p.affinity == BitAffinity(gm, b);
    forall other | 0 <= other < |packages|
      ensures Contains(packages[other], p.affinity) <==> other == k
    {
      ContainsBit(packages[other], p.affinity, b);
      if other != k {
        assert Avoids(packages[other], gm);
      }
    }
  }

  lemma PackageIsRight(cores: seq<seq<GroupMask>>, packages: seq<seq<GroupMask>>, bare: LogicalProcessor, p: LogicalProcessor)
    requires Regular(cores, packages) && NonEmpty(packages) && FromCore(bare, cores, |cores|)
    requires p.affinity == bare.affinity && p.pkgID == PackageId(packages, |packages|, bare)
    ensures InItsPackage(p, packages)
  {
    var gm := cores[bare.coreID][0];
    var k :| OwnedBy(packages, gm, k);
    OwnerDecides(packages, gm, k, |packages|, bare);
    OwnerIsOnly(packages, gm, k, bare);
    IdIsRecordNumber(packages, k);
  }

  lemma SameCoreSamePackage(cores: seq<seq<GroupMask>>, packages: seq<seq<GroupMask>>, p: LogicalProcessor, q: LogicalProcessor)
    requires Regular(cores, packages) && NonEmpty(packages)
    requires FromCore(p, cores, |cores|) && FromCore(q, cores, |cores|) && p.coreID == q.coreID
    ensures PackageId(packages, |packages|, p) == PackageId(packages, |packages|, q)
  {
    var gm := cores[p.coreID][0];
    var k :| OwnedBy(packages, gm, k);
    OwnerDecides(packages, gm, k, |packages|, p);
    OwnerDecides(packages, gm, k, |packages|, q);
  }

  // Counting cores.

  ghost function IdsBelow(procs: Procs, m: nat): set<CoreId> {
    set i | 0 <= i < |procs| && procs[i].coreID < m :: procs[i].UniqueCoreID()
  }

  lemma OneMoreCore(procs: Procs, m: nat, i: nat)
    requires i < |procs| && procs[i].coreID == m && IdsTellCoresApart(procs)
    ensures |IdsBelow(procs, m + 1)| == |IdsBelow(procs, m)| + 1
  {
    assert procs[i].UniqueCoreID() !in IdsBelow(procs, m);
    assert IdsBelow(procs, m + 1) == IdsBelow(procs, m) + {procs[i].UniqueCoreID()};
  }

  lemma NoIdsBelowZero(procs: Procs)
    ensures IdsBelow(procs, 0) == {}
  {
  }

  /** If unique ids tell cores apart, there are as many as cores. */
  lemma {:induction false} CountCores(procs: Procs, m: nat)
    requires Dense(procs, m) && IdsTellCoresApart(procs)
    ensures |IdsBelow(procs, m)| == m
  {
    if m == 0 {
      NoIdsBelowZero(procs);
    } else {
      CountCores(procs, m - 1);
      assert HasCore(procs, m - 1);
      var i :| 0 <= i < |procs| && procs[i].coreID == m - 1;
      OneMoreCore(procs, m - 1, i);
    }
  }

  // The theorem.

  /** What the topology pass promises about its table. */
  ghost predicate GoodTopology(procs: Procs, cores: seq<seq<GroupMask>>)
    requires SingleGroup(cores)
  {
    && |procs| == TotalBits(cores, |cores|)
    && AllFromCores(procs, cores, |cores|)
    && DistinctAffinities(procs)
    && Ascending(procs) && Dense(procs, |cores|)
    && (|procs| < 0x1_0000_0000 ==> Numbered(procs))
    && |CoreIds(procs)| == |cores| && IdsTellCoresApart(procs)
    && SizesMatch(procs, cores, |cores|)
  }

  lemma SameFields(before: Procs, after: Procs, cores: seq<seq<GroupMask>>)
    requires |before| == |after| && SingleGroup(cores)
    requires forall i :: 0 <= i < |before| ==> after[i].coreID == before[i].coreID && after[i].affinity == before[i].affinity
    requires AllFromCores(before, cores, |cores|) && DistinctAffinities(before) && Ascending(before) && Dense(before, |cores|)
    ensures AllFromCores(after, cores, |cores|) && DistinctAffinities(after) && Ascending(after) && Dense(after, |cores|)
    ensures SizesMatch(before, cores, |cores|) ==> SizesMatch(after, cores, |cores|)
  {
    forall c: nat | c < |cores|
      ensures CountCore(after, c) == CountCore(before, c)
    {
      CountOfSame(after, before, c);
    }
    forall p | p in after
      ensures FromCore(p, cores, |cores|)
    {
      var i :| 0 <= i < |after| && after[i] == p;
      assert before[i] in before && FromCore(before[i], cores, |cores|);
      assert FromMask(before[i], cores[p.coreID][0], 64);
    }
    forall c: nat | c < |cores|
      ensures HasCore(after, c)
    {
      assert HasCore(before, c);
    }
  }

  lemma AllCounted(procs: Procs, cores: seq<seq<GroupMask>>)
    requires SingleGroup(cores) && AllFromCores(procs, cores, |cores|)
    ensures CoreIds(procs) == IdsBelow(procs, |cores|)
  {
    forall i | 0 <= i < |procs|
      ensures procs[i].coreID < |cores|
    {
      assert procs[i] in procs && FromCore(procs[i], cores, |cores|);
    }
  }

  ghost predicate IdsTellCoresApart(procs: Procs) {
    forall i, j :: 0 <= i < |procs| && 0 <= j < |procs| ==>
      (procs[i].UniqueCoreID() == procs[j].UniqueCoreID() <==> procs[i].coreID == procs[j].coreID)
  }

  lemma PackagesFollowCores(cores: seq<seq<GroupMask>>, packages: seq<seq<GroupMask>>, bare: Procs, packaged: Procs, procs: Procs)
    requires Regular(cores, packages) && NonEmpty(packages) && AllFromCores(bare, cores, |cores|)
    requires HavePackages(bare, packaged, packages, |packages|) && HaveGlobalIds(packaged, procs)
    ensures IdsTellCoresApart(procs)
  {
    forall i, j | 0 <= i < |procs| && 0 <= j < |procs|
      ensures procs[i].UniqueCoreID() == procs[j].UniqueCoreID() <==> procs[i].coreID == procs[j].coreID
    {
      UniqueCoreIDIsUnique(procs[i], procs[j]);
      if procs[i].coreID == procs[j].coreID {
        assert bare[i] in bare && bare[j] in bare;
        SameCoreSamePackage(cores, packages, bare[i], bare[j]);
      }
    }
  }

  /** Packages and global ids turn the processors of the cores into a good table. */
  lemma GoodFromCores(cores: seq<seq<GroupMask>>, bare: Procs, packaged: Procs, procs: Procs)
    requires SingleGroup(cores) && GoodCores(bare, cores, |cores|) && IdsTellCoresApart(procs)
    requires |packaged| == |bare| && HaveGlobalIds(packaged, procs)
    requires forall i :: 0 <= i < |bare| ==> procs[i].coreID == bare[i].coreID && procs[i].affinity == bare[i].affinity
    ensures GoodTopology(procs, cores)
  {
    SameFields(bare, procs, cores);
    CountCores(procs, |cores|);
    AllCounted(procs, cores);
  }

  /** What the topology pass promises about packages and flags. */
  ghost predicate GoodEntries(procs: Procs, packages: seq<seq<GroupMask>>, access: Access)
    requires NonEmpty(packages)
  {
    AllInPackages(procs, packages) && FlagsAreRight(procs, access) && MasksAscend(procs)
  }

  ghost predicate AllInPackages(procs: Procs, packages: seq<seq<GroupMask>>)
    requires NonEmpty(packages)
  {
    forall i :: 0 <= i < |procs| ==> InItsPackage(procs[i], packages)
  }

  /** The threads of a core are listed in the order of their mask bits. */
  ghost predicate MasksAscend(procs: Procs) {
    forall i, j :: 0 <= i < j < |procs| && procs[i].coreID == procs[j].coreID ==>
      procs[i].affinity.mask < procs[j].affinity.mask
  }

  lemma {:induction false} BitProcsAscend(id: u32, gm: GroupMask, access: Access, n: nat)
    requires n <= 64
    ensures var r := BitProcs(id, gm, access, n);
      MasksAscend(r) && forall i :: 0 <= i < |r| ==> r[i].affinity.mask < Pow2(n) && r[i].coreID == id
  {
    if n > 0 {
      BitProcsAscend(id, gm, access, n - 1);
    }
  }

  lemma JoinAscending(s: Procs, t: Procs, n: nat)
    requires MasksAscend(s) && MasksAscend(t)
    requires NumbersBelow(s, n) && forall i :: 0 <= i < |t| ==> t[i].coreID == n
    ensures MasksAscend(s + t)
  {
    forall i | 0 <= i < |s|
      ensures s[i].coreID != n
    {
      assert s[i] in s;
    }
  }

  lemma {:induction false} CoreProcsAscend(cores: seq<seq<GroupMask>>, access: Access, n: nat)
    requires SingleGroup(cores) && PairwiseDisjoint(cores) && n <= |cores| < 0x1_0000_0000
    ensures NonEmpty(cores) && MasksAscend(CoreProcs(cores, access, n))
  {
    DisjointCoresDiffer(cores);
    if n > 0 {
      CoreProcsAscend(cores, access, n - 1);
      OneCore(cores, access, n - 1);
      CoreNumbersBelow(cores, access, n - 1);
      NextCoreAscends(CoreProcs(cores, access, n - 1), n - 1, cores[n - 1][0], access);
    }
  }

  lemma NextCoreAscends(s: Procs, id: u32, gm: GroupMask, access: Access)
    requires MasksAscend(s) && NumbersBelow(s, id)
    ensures MasksAscend(s + BitProcs(id, gm, access, 64))
  {
    BitProcsAscend(id, gm, access, 64);
    JoinAscending(s, BitProcs(id, gm, access, 64), id);
  }

  /** All core numbers are below n. */
  ghost predicate NumbersBelow(s: Procs, n: nat) {
    forall p :: p in s ==> p.coreID < n
  }

  lemma CoreNumbersBelow(cores: seq<seq<GroupMask>>, access: Access, n: nat)
    requires SingleGroup(cores) && PairwiseDisjoint(cores) && n <= |cores| < 0x1_0000_0000
    ensures NonEmpty(cores) && NumbersBelow(CoreProcs(cores, access, n), n)
  {
    CoreProcsFacts(cores, access, n);
    forall p | p in CoreProcs(cores, access, n)
      ensures p.coreID < n
    {
      assert FromCore(p, cores, n);
    }
  }

  lemma OrderKept(bare: Procs, procs: Procs)
    requires MasksAscend(bare) && |procs| == |bare|
    requires forall i :: 0 <= i < |bare| ==> procs[i].coreID == bare[i].coreID && procs[i].affinity == bare[i].affinity
    ensures MasksAscend(procs)
  {
  }

  lemma EntriesAreGood(cores: seq<seq<GroupMask>>, packages: seq<seq<GroupMask>>, access: Access, packaged: Procs, procs: Procs)
    requires Regular(cores, packages) && NonEmpty(cores) && NonEmpty(packages) && |cores| < 0x1_0000_0000
    requires HavePackages(CoreProcs(cores, access, |cores|), packaged, packages, |packages|)
    requires HaveGlobalIds(packaged, procs) && AllFromCores(CoreProcs(cores, access, |cores|), cores, |cores|)
    ensures GoodEntries(procs, packages, access)
  {
    var bare := CoreProcs(cores, access, |cores|);
    FlagsOfCores(cores, access, |cores|);
    CoreProcsAscend(cores, access, |cores|);
    OrderKept(bare, procs);
    forall i | 0 <= i < |procs|
      ensures InItsPackage(procs[i], packages) && FlagIsRight(procs[i], access)
    {
      assert bare[i] in bare;
      PackageIsRight(cores, packages, bare[i], procs[i]);
      assert FlagIsRight(bare[i], access);
    }
  }

  /** For regular hardware the pass builds a good table. */
  lemma TopologyIsGood(cores: seq<seq<GroupMask>>, packages: seq<seq<GroupMask>>, access: Access, packaged: Procs, procs: Procs)
    requires Regular(cores, packages) && NonEmpty(cores) && NonEmpty(packages) && |cores| < 0x1_0000_0000
    requires HavePackages(CoreProcs(cores, access, |cores|), packaged, packages, |packages|)
    requires HaveGlobalIds(packaged, procs)
    ensures GoodTopology(procs, cores) && GoodEntries(procs, packages, access)
  {
    var bare := CoreProcs(cores, access, |cores|);
    CoreProcsFacts(cores, access, |cores|);
    PackagesFollowCores(cores, packages, bare, packaged, procs);
    GoodFromCores(cores, bare, packaged, procs);
    EntriesAreGood(cores, packages, access, packaged, procs);
  }

  lemma {:induction false} ThreadsAreCounted(procs: Procs, n: nat, i: nat)
    requires IdsTellCoresApart(procs) && n <= |procs| && i < |procs|
    ensures |ThreadsOf(procs, n, procs[i].UniqueCoreID())| == CountCore(procs[..n], procs[i].coreID)
  {
    if n > 0 {
      ThreadsAreCounted(procs, n - 1, i);
      assert procs[..n][..n - 1] == procs[..n - 1];
    }
  }

  /** In a good table, the manager's list of a core is as long as its mask has bits. */
  lemma ThreadsAreMaskBits(procs: Procs, cores: seq<seq<GroupMask>>, i: nat)
    requires SingleGroup(cores) && GoodTopology(procs, cores) && i < |procs|
    ensures procs[i].coreID < |cores|
    ensures |Threads(procs, procs[i].UniqueCoreID())| == PopCount(cores[procs[i].coreID][0].mask)
  {
    assert procs[i] in procs && FromCore(procs[i], cores, |cores|);
    ThreadsAreCounted(procs, |procs|, i);
    assert procs[..|procs|] == procs;
  }

  /** getPhysicalCoreThreadAffinity looks at the last core number first; with ascending numbers that misses nothing. */
  lemma {:induction false} EarlyExitMissesNothing(procs: Procs, coreID: u32)
    requires Ascending(procs) && (procs == [] || coreID > procs[|procs| - 1].coreID)
    ensures AffinitiesOf(procs, coreID) == []
  {
    if procs != [] {
      if |procs| > 1 {
        assert procs[..|procs| - 1][|procs| - 2] == procs[|procs| - 2];
      }
      EarlyExitMissesNothing(procs[..|procs| - 1], coreID);
    }
  }

  lemma DescribedTableIsGood(v: ProcessorConfigurationVector, native: seq<Record>, access: Access)
    requires Describes(v, native, access) && Regular(CoresOf(native), PackagesOf(native))
    ensures GoodTopology(v.proc, CoresOf(native)) && GoodEntries(v.proc, PackagesOf(native), access)
  {
    var cores, packages := CoresOf(native), PackagesOf(native);
    var packaged :| HavePackages(CoreProcs(cores, access, |cores|), packaged, packages, |packages|)
      && HaveGlobalIds(packaged, v.proc);
    TopologyIsGood(cores, packages, access, packaged, v.proc);
  }

  /** idx lists, in table order, exactly the threads of the core, and list their affinities. */
  ghost predicate ListsCore(procs: Procs, coreID: u32, idx: seq<nat>, list: seq<GroupMask>) {
    && TableOrder(idx) && |idx| == |list|
    && (forall k :: 0 <= k < |idx| ==> idx[k] < |procs| && list[k] == procs[idx[k]].affinity)
    && (forall i: nat :: i in idx <==> i < |procs| && procs[i].coreID == coreID)
  }

  lemma ListsCoreStep(procs: Procs, p: LogicalProcessor, coreID: u32, idx: seq<nat>, list: seq<GroupMask>)
    requires ListsCore(procs, coreID, idx, list)
    ensures p.coreID != coreID ==> ListsCore(procs + [p], coreID, idx, list)
    ensures p.coreID == coreID ==> ListsCore(procs + [p], coreID, idx + [|procs|], list + [p.affinity])
  {
    OrderExtends(idx, |procs|);
  }

  /** The affinities of a core are those of its threads, in table order. */
  lemma {:induction false} AffinitiesInOrder(procs: Procs, coreID: u32) returns (idx: seq<nat>)
    ensures ListsCore(procs, coreID, idx, AffinitiesOf(procs, coreID))
  {
    idx := [];
    if procs != [] {
      var n := |procs| - 1;
      idx := AffinitiesInOrder(procs[..n], coreID);
      ListsCoreStep(procs[..n], procs[n], coreID, idx, AffinitiesOf(procs[..n], coreID));
      assert procs == procs[..n] + [procs[n]];
      if procs[n].coreID == coreID {
        idx := idx + [n];
      }
    }
  }

  /** The counts of a good table are the true ones. */
  lemma CountsAreRight(v: ProcessorConfigurationVector, native: seq<Record>, access: Access)
    requires Describes(v, native, access) && Regular(CoresOf(native), PackagesOf(native)) && CoresOf(native) != []
    requires TotalBits(CoresOf(native), |CoresOf(native)|) < 0x1_0000_0000
    ensures NonEmpty(PackagesOf(native)) && v.proc != []
    ensures GoodTopology(v.proc, CoresOf(native)) && GoodEntries(v.proc, PackagesOf(native), access)
    ensures v.LogicalCoreCount() == |v.proc| && v.PhysicalCoreCount() == |CoresOf(native)|
    ensures v.PackageCount() == |Firsts(PackagesOf(native), |PackagesOf(native)|)| % 0x1_0000
  {
    DescribedTableIsGood(v, native, access);
    TableSize(CoresOf(native));
    TableHasFirsts(PackagesOf(native));
    NonEmptyTable(v.proc, CoresOf(native));
    PublishedCounts(v, CoresOf(native), PackagesOf(native));
  }

  lemma PublishedCounts(v: ProcessorConfigurationVector, cores: seq<seq<GroupMask>>, packages: seq<seq<GroupMask>>)
    requires NonEmpty(cores) && NonEmpty(packages) && HasCounts(v, cores, packages) && v.proc != []
    requires |v.proc| < 0x1_0000_0000 && |IdTable(cores)| < 0x1_0000_0000
    ensures v.LogicalCoreCount() == |v.proc| && v.PhysicalCoreCount() == |IdTable(cores)|
    ensures v.PackageCount() == |IdTable(packages)| % 0x1_0000
  {
  }

  lemma TableSize(cores: seq<seq<GroupMask>>)
    requires SingleGroup(cores) && PairwiseDisjoint(cores)
    ensures NonEmpty(cores) && |IdTable(cores)| == |cores|
  {
    DisjointCoresDiffer(cores);
    IdsArePositions(cores);
  }

  lemma NonEmptyTable(procs: Procs, cores: seq<seq<GroupMask>>)
    requires SingleGroup(cores) && GoodTopology(procs, cores) && cores != []
    ensures procs != []
  {
    assert HasCore(procs, 0);
  }

  /** Topology and manager fit together: initialising from regular hardware starts in a valid state. */
  method InitializeFromHardware(native: seq<Record>, access: Access) returns (manager: DynamicThreadManager)
    requires WellFormed(native) && Regular(CoresOf(native), PackagesOf(native)) && CoresOf(native) != []
    requires TotalBits(CoresOf(native), |CoresOf(native)|) < 0x1_0000_0000
    ensures fresh(manager) && fresh(manager.config) && manager.Valid()
    ensures NonEmpty(PackagesOf(native)) && GoodTopology(manager.config.proc, CoresOf(native))
    ensures GoodEntries(manager.config.proc, PackagesOf(native), access)
    ensures manager.State() == InitialPool(manager.config.proc, |manager.config.proc|, |CoresOf(native)|)
    ensures FreeSet(manager.config.proc, manager.State()) == Below(|manager.config.proc|)
  {
    var table := new ProcessorConfigurationVector();
    var ok := table.Initialize(Some(native), Some(access));
    CountsAreRight(table, native, access);
    InitialPoolIsValid(table.proc, |table.proc|, |CoresOf(native)|);
    manager := new DynamicThreadManager();
    ok := manager.Initialize(table);
  }
}
