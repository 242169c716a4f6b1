/**
 What the fields of a table entry mean, in terms of mask bits and record positions: package
 numbers and usability (ProcessCurrentConfiguration, tailslayer/source/proc.cpp).
 */
module TopologyEntries {
  import opened Machine
  import opened Bits
  import opened Processors
  import opened Topology

  lemma Pow2Grows(a: nat, b: nat)
    requires a < b
    ensures Pow2(a) < Pow2(b)
  {
    Pow2Monotone(a + 1, b);
  }

  lemma Pow2Injective(a: nat, b: nat)
    requires Pow2(a) == Pow2(b)
    ensures a == b
  {
    if a < b {
      Pow2Grows(a, b);
    } else if b < a {
      Pow2Grows(b, a);
    }
  }

  // Membership in a record, on bits.

  /** Some mask of the record is for this group and has bit b. */
  ghost predicate HasBit(groups: seq<GroupMask>, group: u16, b: nat) {
    exists g :: 0 <= g < |groups| && groups[g].group == group && Bit(groups[g].mask, b)
  }

  lemma MatchesOnBits(gm: GroupMask, affinity: GroupMask, b: nat)
    requires affinity.mask == Pow2(b)
    ensures Matches(gm, affinity) <==> gm.group == affinity.group && Bit(gm.mask, b)
  {
    AndPow2(gm.mask, b);
  }

  lemma CoversOnBits(groups: seq<GroupMask>, affinity: GroupMask, b: nat)
    requires affinity.mask == Pow2(b)
    ensures Covers(groups, affinity) <==> HasBit(groups, affinity.group, b)
  {
    forall g | 0 <= g < |groups|
      ensures Matches(groups[g], affinity) <==> groups[g].group == affinity.group && Bit(groups[g].mask, b)
    {
      MatchesOnBits(groups[g], affinity, b);
    }
  }

  /** The record names the processor with this single-bit affinity. */
  ghost predicate Contains(groups: seq<GroupMask>, affinity: GroupMask) {
    exists b: nat :: affinity.mask == Pow2(b) && HasBit(groups, affinity.group, b)
  }

  lemma ContainsBit(groups: seq<GroupMask>, affinity: GroupMask, b: nat)
    requires affinity.mask == Pow2(b)
    ensures Contains(groups, affinity) <==> HasBit(groups, affinity.group, b)
  {
    if Contains(groups, affinity) {
      var other: nat :| affinity.mask == Pow2(other) && HasBit(groups, affinity.group, other);
      Pow2Injective(b, other);
    }
  }

  // Numbers of records: how many different first masks came before.

  function Firsts(recs: seq<seq<GroupMask>>, n: nat): (r: set<GroupMask>)
    requires NonEmpty(recs) && n <= |recs|
  {
    set i | 0 <= i < n :: recs[i][0]
  }

  /** The first record from j on with the same first mask as record k. */
  function FirstLike(recs: seq<seq<GroupMask>>, k: nat, j: nat): (f: nat)
    requires NonEmpty(recs) && j <= k < |recs|
    ensures j <= f <= k && recs[f][0] == recs[k][0] && forall i :: j <= i < f ==> recs[i][0] != recs[k][0]
    decreases k - j
  {
    if recs[j][0] == recs[k][0] then j else FirstLike(recs, k, j + 1)
  }

  function RecordNumber(recs: seq<seq<GroupMask>>, k: nat): nat
    requires NonEmpty(recs) && k < |recs|
  {
    |Firsts(recs, FirstLike(recs, k, 0))|
  }

  lemma FirstsGrow(recs: seq<seq<GroupMask>>, n: nat)
    requires NonEmpty(recs) && n < |recs|
    ensures Firsts(recs, n + 1) == Firsts(recs, n) + {recs[n][0]}
  {
  }

  lemma FirstsOfInit(recs: seq<seq<GroupMask>>, n: nat)
    requires NonEmpty(recs) && n < |recs|
    ensures Firsts(recs, n) == Firsts(recs[..|recs| - 1], n)
  {
    var init := recs[..|recs| - 1];
    forall i | 0 <= i < n
      ensures recs[i][0] == init[i][0]
    {
    }
  }

  lemma {:induction false} TableHasFirsts(recs: seq<seq<GroupMask>>)
    requires NonEmpty(recs)
    ensures IdTable(recs).Keys == Firsts(recs, |recs|)
    ensures |IdTable(recs)| == |Firsts(recs, |recs|)|
  {
    if recs != [] {
      var n := |recs| - 1;
      TableHasFirsts(recs[..n]);
      FirstsGrow(recs, n);
      FirstsOfInit(recs, n);
      assert IdTable(recs).Keys == IdTable(recs[..n]).Keys + {recs[n][0]};
    }
    assert |IdTable(recs)| == |IdTable(recs).Keys|;
  }

  lemma {:induction false} IdsCountFirsts(recs: seq<seq<GroupMask>>, f: nat)
    requires NonEmpty(recs) && f < |recs| && recs[f][0] !in Firsts(recs, f)
    ensures IdTable(recs)[recs[f][0]] == |Firsts(recs, f)|
  {
    var n := |recs| - 1;
    var init := recs[..n];
    FirstsOfInit(recs, f);
    TableHasFirsts(init);
    if f < n {
      assert init[f][0] == recs[f][0];
      IdsCountFirsts(init, f);
    }
  }

  /** The id of a record is its number. */
  lemma IdIsRecordNumber(recs: seq<seq<GroupMask>>, k: nat)
    requires NonEmpty(recs) && k < |recs|
    ensures IdTable(recs)[recs[k][0]] == RecordNumber(recs, k)
  {
    var f := FirstLike(recs, k, 0);
    assert recs[f][0] !in Firsts(recs, f);
    IdsCountFirsts(recs, f);
  }

  /** When all first masks differ, the number of a record is its position. */
  lemma NumberIsPosition(recs: seq<seq<GroupMask>>, k: nat)
    requires NonEmpty(recs) && k < |recs| && forall i, j :: 0 <= i < j < |recs| ==> recs[i][0] != recs[j][0]
    ensures RecordNumber(recs, k) == k
  {
    assert FirstLike(recs, k, 0) == k;
    DistinctFirsts(recs, k);
  }

  lemma {:induction false} DistinctFirsts(recs: seq<seq<GroupMask>>, n: nat)
    requires NonEmpty(recs) && n <= |recs| && forall i, j :: 0 <= i < j < |recs| ==> recs[i][0] != recs[j][0]
    ensures |Firsts(recs, n)| == n
  {
    if n > 0 {
      DistinctFirsts(recs, n - 1);
      assert Firsts(recs, n) == Firsts(recs, n - 1) + {recs[n - 1][0]};
    }
  }

  /** On any hardware the last package record that has the processor's bit decides. */
  lemma {:induction false} LastPackageWins(packages: seq<seq<GroupMask>>, n: nat, p: LogicalProcessor, b: nat)
    requires NonEmpty(packages) && n <= |packages| && p.affinity.mask == Pow2(b)
    ensures (forall k :: 0 <= k < n ==> !HasBit(packages[k], p.affinity.group, b)) ==> PackageId(packages, n, p) == p.pkgID
    ensures forall k: nat :: k < n && IsLastWith(packages, n, p.affinity.group, b, k) ==>
      PackageId(packages, n, p) == RecordNumber(packages, k) % 0x1_0000
  {
    if n > 0 {
      LastPackageWins(packages, n - 1, p, b);
      CoversOnBits(packages[n - 1], p.affinity, b);
      IdIsRecordNumber(packages, n - 1);
      forall k: nat | k < n - 1 && IsLastWith(packages, n, p.affinity.group, b, k)
        ensures IsLastWith(packages, n - 1, p.affinity.group, b, k)
      {
      }
    }
  }

  ghost predicate IsLastWith(packages: seq<seq<GroupMask>>, n: nat, group: u16, b: nat, k: nat)
    requires n <= |packages|
  {
    k < n && HasBit(packages[k], group, b) && forall other :: k < other < n ==> !HasBit(packages[other], group, b)
  }

  // The expansion, on any hardware.

  /** p stands for bit b of the g-th mask of core record c, and carries the record's number. */
  ghost predicate StandsFor(p: LogicalProcessor, cores: seq<seq<GroupMask>>, access: Access, c: nat, g: nat, b: nat)
    requires NonEmpty(cores) && |cores| < 0x1_0000_0000
  {
    && c < |cores| && g < |cores[c]| && b < 64 && Bit(cores[c][g].mask, b) && RecordNumber(cores, c) < 0x1_0000_0000
    && p == BitProc(RecordNumber(cores, c), cores[c][g].group, access, b)
  }

  lemma {:induction false} BitsListed(id: u32, gm: GroupMask, access: Access, n: nat, p: LogicalProcessor)
    requires n <= 64
    ensures p in BitProcs(id, gm, access, n) <==> exists b: nat :: b < n && Bit(gm.mask, b) && p == BitProc(id, gm.group, access, b)
  {
    if n > 0 {
      BitsListed(id, gm, access, n - 1, p);
    }
  }

  lemma {:induction false} GroupsListed(id: u32, groups: seq<GroupMask>, access: Access, n: nat, p: LogicalProcessor)
    requires n <= |groups|
    ensures p in GroupProcs(id, groups, access, n) <==>
      exists g: nat :: g < n && p in BitProcs(id, groups[g], access, 64)
  {
    if n > 0 {
      GroupsListed(id, groups, access, n - 1, p);
    }
  }

  lemma {:induction false} CoresListed(cores: seq<seq<GroupMask>>, access: Access, n: nat, p: LogicalProcessor)
    requires NonEmpty(cores) && n <= |cores| < 0x1_0000_0000
    ensures p in CoreProcs(cores, access, n) <==>
      exists c: nat :: c < n && p in GroupProcs(IdTable(cores)[cores[c][0]], cores[c], access, |cores[c]|)
  {
    if n > 0 {
      CoresListed(cores, access, n - 1, p);
      var last := GroupProcs(IdTable(cores)[cores[n - 1][0]], cores[n - 1], access, |cores[n - 1]|);
      assert p in CoreProcs(cores, access, n) <==> p in CoreProcs(cores, access, n - 1) || p in last;
    }
  }

  /** Every processor of the table stands for some bit of some mask of some core record. */
  lemma EveryEntryHasItsBit(cores: seq<seq<GroupMask>>, access: Access, p: LogicalProcessor) returns (c: nat, g: nat, b: nat)
    requires NonEmpty(cores) && |cores| < 0x1_0000_0000 && p in CoreProcs(cores, access, |cores|)
    ensures StandsFor(p, cores, access, c, g, b)
  {
    CoresListed(cores, access, |cores|, p);
    c :| c < |cores| && p in GroupProcs(IdTable(cores)[cores[c][0]], cores[c], access, |cores[c]|);
    IdIsRecordNumber(cores, c);
    var id := RecordNumber(cores, c);
    GroupsListed(id, cores[c], access, |cores[c]|, p);
    g :| g < |cores[c]| && p in BitProcs(id, cores[c][g], access, 64);
    BitsListed(id, cores[c][g], access, 64, p);
    b :| b < 64 && Bit(cores[c][g].mask, b) && p == BitProc(id, cores[c][g].group, access, b);
  }

  /** And every set bit has its processor in the table. */
  lemma EveryBitHasItsEntry(cores: seq<seq<GroupMask>>, access: Access, p: LogicalProcessor, c: nat, g: nat, b: nat)
    requires NonEmpty(cores) && |cores| < 0x1_0000_0000 && StandsFor(p, cores, access, c, g, b)
    ensures p in CoreProcs(cores, access, |cores|)
  {
    var id := RecordNumber(cores, c);
    IdIsRecordNumber(cores, c);
    BitsListed(id, cores[c][g], access, 64, p);
    GroupsListed(id, cores[c], access, |cores[c]|, p);
    CoresListed(cores, access, |cores|, p);
  }

  // Usability.

  /** The flag says whether the process may run there: its group is allowed and, in the primary group, its bit too. */
  ghost predicate FlagIsRight(p: LogicalProcessor, access: Access) {
    forall b: nat :: p.affinity.mask == Pow2(b) ==>
      (p.usable <==>
        p.affinity.group in access.groups && (p.affinity.group == access.primaryGroup ==> Bit(access.processMask, b)))
  }

  lemma {:induction false} AndOfPow2(b: nat, y: nat)
    ensures And(Pow2(b), y) == if Bit(y, b) then Pow2(b) else 0
  {
    if b > 0 {
      AndOfPow2(b - 1, y / 2);
    } else {
      assert And(0, y / 2) == 0;
    }
  }

  lemma FlagOfBit(id: u32, group: u16, access: Access, b: nat)
    requires b < 64
    ensures FlagIsRight(BitProc(id, group, access, b), access)
  {
    AndOfPow2(b, access.processMask);
    forall other: nat | Pow2(b) == Pow2(other)
      ensures other == b
    {
      Pow2Injective(b, other);
    }
  }

  ghost predicate FlagsAreRight(procs: Procs, access: Access) {
    forall p :: p in procs ==> FlagIsRight(p, access)
  }

  lemma {:induction false} FlagsOfBits(id: u32, gm: GroupMask, access: Access, n: nat)
    requires n <= 64
    ensures FlagsAreRight(BitProcs(id, gm, access, n), access)
  {
    if n > 0 {
      FlagsOfBits(id, gm, access, n - 1);
      FlagOfBit(id, gm.group, access, n - 1);
    }
  }

  lemma {:induction false} FlagsOfGroups(id: u32, groups: seq<GroupMask>, access: Access, n: nat)
    requires n <= |groups|
    ensures FlagsAreRight(GroupProcs(id, groups, access, n), access)
  {
    if n > 0 {
      FlagsOfGroups(id, groups, access, n - 1);
      FlagsOfBits(id, groups[n - 1], access, 64);
    }
  }

  /** Every processor of every core record carries the right flag, on any hardware. */
  lemma {:induction false} FlagsOfCores(cores: seq<seq<GroupMask>>, access: Access, n: nat)
    requires NonEmpty(cores) && n <= |cores| < 0x1_0000_0000
    ensures FlagsAreRight(CoreProcs(cores, access, n), access)
  {
    if n > 0 {
      FlagsOfCores(cores, access, n - 1);
      FlagsOfGroups(IdTable(cores)[cores[n - 1][0]], cores[n - 1], access, |cores[n - 1]|);
    }
  }
}
