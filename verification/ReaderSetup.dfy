/**
 The construction of a HedgedReader from its memory (constructor and setup_memory,
 tailslayer/include/tailslayer/hedged_reader.hpp): allocation, contiguity search, layout
 and channels together.
 */
module ReaderSetup {
  import opened Machine
  import opened Wrappers
  import opened Bits
  import opened Contiguity
  import opened LargePages
  import opened HedgedVector
  import opened ChannelSeparation

  /** Bytes of n replicas are on different channels exactly when the replica numbers differ in parity. */
  ghost predicate ParitySeparates(tr: Translation, r: Region, P: nat, l: Layout, bit: nat, n: nat)
    requires P > 0 && l.elemSize > 0 && r.vaddr >= 0
  {
    forall i: nat, k: nat, j: nat, b: nat :: i < k < n && j < Capacity(l) && b < l.elemSize ==>
      var x, y := PhysicalByte(tr, r, P, l, i, j, b), PhysicalByte(tr, r, P, l, k, j, b);
      x.At? && y.At? && (ComputeChannel(x.paddr, bit) != ComputeChannel(y.paddr, bit) <==> (k - i) % 2 == 1)
  }

  /** Every index has all its n replicas on different channels. */
  ghost predicate Separated(tr: Translation, r: Region, P: nat, l: Layout, bit: nat, n: nat)
    requires P > 0 && l.elemSize > 0 && r.vaddr >= 0
  {
    forall j: nat :: j < Capacity(l) ==> AllOnDifferentChannels(tr, r, P, l, bit, n, j)
  }

  lemma ParityDecides(tr: Translation, r: Region, P: nat, l: Layout, bit: nat, n: nat)
    requires P > 0 && HugeRegion(tr, r, P) && ValidLayout(l) && l.channelOffset == Pow2(bit) && n <= l.numChannels
    ensures ParitySeparates(tr, r, P, l, bit, n)
  {
    forall i: nat, k: nat, j: nat, b: nat | i < k < n && j < Capacity(l) && b < l.elemSize
      ensures var x, y := PhysicalByte(tr, r, P, l, i, j, b), PhysicalByte(tr, r, P, l, k, j, b);
        x.At? && y.At? && (ComputeChannel(x.paddr, bit) != ComputeChannel(y.paddr, bit) <==> (k - i) % 2 == 1)
    {
      ReplicasOnDifferentChannels(tr, r, P, l, bit, i, k, j, b);
    }
  }

  lemma TwoAreSeparated(tr: Translation, r: Region, P: nat, l: Layout, bit: nat, n: nat)
    requires P > 0 && HugeRegion(tr, r, P) && ValidLayout(l) && l.channelOffset == Pow2(bit) && n <= l.numChannels
    ensures Separated(tr, r, P, l, bit, n) <==> n <= 2 || Capacity(l) == 0
  {
    forall j: nat | j < Capacity(l)
      ensures AllOnDifferentChannels(tr, r, P, l, bit, n, j) <==> n <= 2
    {
      SanityCheckPassesForTwo(tr, r, P, l, bit, n, j);
    }
    if Capacity(l) > 0 {
      assert Separated(tr, r, P, l, bit, n) ==> AllOnDifferentChannels(tr, r, P, l, bit, n, 0);
    }
  }

  lemma RegionSeparates(tr: Translation, r: Region, P: nat, l: Layout, bit: nat, n: nat)
    requires P > 0 && HugeRegion(tr, r, P) && ValidLayout(l) && l.channelOffset == Pow2(bit) && n <= l.numChannels
    ensures ParitySeparates(tr, r, P, l, bit, n)
    ensures Separated(tr, r, P, l, bit, n) <==> n <= 2 || Capacity(l) == 0
  {
    ParityDecides(tr, r, P, l, bit, n);
    TwoAreSeparated(tr, r, P, l, bit, n);
  }

  /**
   A reader of n replicas over a region that setup_memory found. On success it is empty, its
   page is a live contiguous block, and two replicas of an element share a channel exactly
   when their numbers have the same parity; with up to two replicas, never. The reader's
   addresses are relative to the region's start.
   */
  method ConstructReader(os: Os, elemSize: nat, bit: nat, numChannels: nat, n: nat)
      returns (reader: Option<HedgedReader>, region: Region, ghost attempts: seq<Attempt>)
    requires ValidLayout(Layout(elemSize, Pow2(bit), numChannels)) && 1 <= n <= numChannels && os.pageShift < 48
    modifies os
    ensures AreAttempts(attempts, Pow2(os.pageShift)) && StopsRight(attempts, HUGEPAGE_SIZE)
    ensures reader.Some? <==> EndsWhole(attempts, HUGEPAGE_SIZE)
    ensures reader.None? ==> os.live == old(os.live)
    ensures reader.Some? ==> fresh(reader.value) && reader.value.Valid() && reader.value.contents == []
    ensures reader.Some? ==> reader.value.layout == Layout(elemSize, Pow2(bit), numChannels) && reader.value.replicaCount == n
    ensures reader.Some? ==> 0 < region.vaddr < U64_LIMIT && 0 <= region.size < U64_LIMIT
    ensures reader.Some? ==> os.live == old(os.live)[region.vaddr := region.size] && region.vaddr !in old(os.live)
    ensures reader.Some? ==> HugeRegion(os.translation, region, Pow2(os.pageShift))
    ensures reader.Some? ==>
      ParitySeparates(os.translation, region, Pow2(os.pageShift), Layout(elemSize, Pow2(bit), numChannels), bit, n)
    ensures reader.Some? && n <= 2 ==>
      Separated(os.translation, region, Pow2(os.pageShift), Layout(elemSize, Pow2(bit), numChannels), bit, n)
  {
    var ok;
    ok, region, attempts := SetupMemory(os);
    if !ok {
      return None, region, attempts;
    }
    var r := new HedgedReader(Pow2(bit), numChannels, elemSize, n);
    RegionSeparates(os.translation, region, Pow2(os.pageShift), r.layout, bit, n);
    return Some(r), region, attempts;
  }
}
