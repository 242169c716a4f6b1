/**
 From the contiguity search to the memory channels: in a physically contiguous region the
 replicas of an element fall into consecutive channel blocks (setup_memory and
 compute_channel, tailslayer/include/tailslayer).
 */
module ChannelSeparation {
  import opened Machine
  import opened Bits
  import opened Multiples
  import opened Contiguity
  import opened LargePages
  import opened HedgedVector

  /** compute_channel */
  function ComputeChannel(physAddr: nat, channelBit: nat): nat {
    And(ShiftRight(physAddr, channelBit), 1)
  }

  /** Address translation: the page of v gives the frame, the rest of v the offset in it. */
  function PhysicalAddress(tr: Translation, P: nat, v: nat): Page
    requires P > 0
  {
    var page := PageOf(tr, v - Rem(v, P));
    if page.At? then At(Add64(page.paddr, Rem(v, P))) else Unmapped
  }

  lemma RemOfSum(a: nat, o: nat, P: nat)
    requires P > 0 && Rem(a, P) == 0
    ensures Rem(a + o, P) == Rem(o, P)
  {
    QuotRem(a, P);
    QuotRem(o, P);
    QuotRem(a + o, P);
    TimesAdd(Quot(a, P), Quot(o, P), P);
    SameDigits(P, Quot(a + o, P), Rem(a + o, P), Quot(a, P) + Quot(o, P), Rem(o, P));
  }

  /** Contiguity pays off: inside the region, physical addresses are offsets from its paddr. */
  lemma PhysicalOffset(tr: Translation, r: Region, P: nat, o: nat)
    requires P > 0 && Contiguous(tr, r, P) && r.vaddr >= 0 && Rem(r.vaddr, P) == 0 && o < r.size
    ensures PhysicalAddress(tr, P, r.vaddr + o) == At(Add64(r.paddr, o))
  {
    var n: nat :| r.size == Times(n, P)
      && forall k: nat :: k < n ==> PageOf(tr, r.vaddr + Times(k, P)) == At(Add64(r.paddr, Times(k, P)));
    RemOfSum(r.vaddr, o, P);
    QuotRem(o, P);
    QuotBelow(o, n, P);
    WrapTwice(r.paddr, Times(Quot(o, P), P), Rem(o, P));
  }

  // The replicas of one element.

  /** Consecutive replicas are one channel offset apart. */
  lemma ReplicaStep(l: Layout, i: nat, j: nat)
    requires ValidLayout(l)
    ensures Address(l, i + 1, j) == Address(l, i, j) + l.channelOffset
  {
    ChunkBytes(l);
    var E := Chunk(l);
    TimesAdd(Times(Quot(j, E), l.numChannels) + i, 1, E);
    TimesAdd(Slot(E, l.numChannels, i, j), E, l.elemSize);
    assert Times(1, E) == Times(0, E) + E;
  }

  lemma NextBlock(x: nat, bit: nat)
    ensures ComputeChannel(x + Pow2(bit), bit) == 1 - ComputeChannel(x, bit)
  {
    ShiftPastBlock(x, bit);
    ParityMask(ShiftRight(x, bit));
    ParityMask(ShiftRight(x, bit) + 1);
  }

  lemma {:induction false} ShiftPastBlock(x: nat, bit: nat)
    ensures ShiftRight(x + Pow2(bit), bit) == ShiftRight(x, bit) + 1
    decreases bit
  {
    if bit > 0 {
      ShiftPastBlock(x / 2, bit - 1);
      assert (x + Pow2(bit)) / 2 == x / 2 + Pow2(bit - 1);
    }
  }

  lemma ParityMask(y: nat)
    ensures And(y, 1) == y % 2
  {
    if y > 0 {
      AndZero(y / 2);
    }
  }

  lemma {:induction false} BitOfShift(x: nat, bit: nat)
    ensures Bit(x, bit) <==> ShiftRight(x, bit) % 2 == 1
    decreases bit
  {
    if bit > 0 {
      BitOfShift(x / 2, bit - 1);
    }
  }

  /** The channel of an address is its channel bit. */
  lemma ChannelIsChannelBit(x: nat, bit: nat)
    ensures ComputeChannel(x, bit) == if Bit(x, bit) then 1 else 0
  {
    ParityMask(ShiftRight(x, bit));
    BitOfShift(x, bit);
  }

  /** Bytes of the replicas i and i + d of one element are on the same channel exactly when d is even. */
  lemma {:induction false} ChannelsAlternate(l: Layout, base: nat, bit: nat, i: nat, d: nat, j: nat)
    requires ValidLayout(l) && l.channelOffset == Pow2(bit)
    ensures ComputeChannel(base + Address(l, i + d, j), bit) == ComputeChannel(base + Address(l, i, j), bit) <==> d % 2 == 0
    ensures ComputeChannel(base + Address(l, i + d, j), bit) < 2
    decreases d
  {
    ChannelIsBit(base + Address(l, i, j), bit);
    ChannelIsBit(base + Address(l, i + d, j), bit);
    if d > 0 {
      ChannelsAlternate(l, base, bit, i, d - 1, j);
      var before := base + Address(l, i + d - 1, j);
      ReplicaStep(l, i + d - 1, j);
      assert base + Address(l, i + d, j) == before + Pow2(bit);
      NextBlock(before, bit);
    }
  }

  lemma ChannelIsBit(x: nat, bit: nat)
    ensures ComputeChannel(x, bit) < 2
  {
    ParityMask(ShiftRight(x, bit));
  }

  // Addresses wrap around at 2^64, which leaves the channel bits alone.

  lemma {:induction false} WholeBlocks(x: nat, bit: nat, m: nat)
    requires bit < m
    ensures ComputeChannel(x + Pow2(m), bit) == ComputeChannel(x, bit)
    decreases m
  {
    if m == bit + 1 {
      NextBlock(x, bit);
      NextBlock(x + Pow2(bit), bit);
      assert x + Pow2(bit) + Pow2(bit) == x + Pow2(m);
    } else {
      WholeBlocks(x, bit, m - 1);
      WholeBlocks(x + Pow2(m - 1), bit, m - 1);
      assert x + Pow2(m - 1) + Pow2(m - 1) == x + Pow2(m);
    }
  }

  lemma {:induction false} ChannelOfWrapped(x: nat, bit: nat)
    requires bit < 64
    ensures ComputeChannel(x % U64_LIMIT, bit) == ComputeChannel(x, bit)
  {
    if x >= U64_LIMIT {
      var y := x - U64_LIMIT;
      WrapOnce(y);
      ChannelOfWrapped(y, bit);
      AddressBlock(y, bit);
    }
  }

  lemma WrapOnce(y: nat)
    ensures (y + U64_LIMIT) % U64_LIMIT == y % U64_LIMIT
  {
  }

  lemma AddressBlock(y: nat, bit: nat)
    requires bit < 64
    ensures ComputeChannel(y + U64_LIMIT, bit) == ComputeChannel(y, bit)
  {
    Pow2Constants();
    WholeBlocks(y, bit, 64);
  }

  /** A page-aligned contiguous region that holds a huge page. */
  ghost predicate HugeRegion(tr: Translation, r: Region, P: nat)
    requires P > 0
  {
    && Contiguous(tr, r, P) && r.vaddr >= 0 && Rem(r.vaddr, P) == 0
    && 0 <= r.paddr && r.size >= HUGEPAGE_SIZE
  }

  /** Byte b of element j of replica i, when the page starts at the region's vaddr. */
  ghost function PhysicalByte(tr: Translation, r: Region, P: nat, l: Layout, i: nat, j: nat, b: nat): Page
    requires P > 0 && l.elemSize > 0 && r.vaddr >= 0
  {
    PhysicalAddress(tr, P, r.vaddr + (Address(l, i, j) + b))
  }

  lemma PhysicalByteIs(tr: Translation, r: Region, P: nat, l: Layout, i: nat, j: nat, b: nat)
    requires P > 0 && HugeRegion(tr, r, P) && ValidLayout(l)
    requires i < l.numChannels && j < Capacity(l) && b < l.elemSize
    ensures Address(l, i, j) + b < r.size
    ensures PhysicalByte(tr, r, P, l, i, j, b) == At(Add64(r.paddr, Address(l, i, j) + b))
  {
    AddressInPage(l, i, j);
    PhysicalOffset(tr, r, P, Address(l, i, j) + b);
  }

  /** Two replicas fit in the page only when the channel bit is one of its address bits. */
  lemma ChannelBitFits(l: Layout, bit: nat, j: nat)
    requires ValidLayout(l) && l.channelOffset == Pow2(bit) && l.numChannels > 1 && j < Capacity(l)
    ensures bit < 64
  {
    AddressInPage(l, 1, j);
    ReplicaStep(l, 0, j);
    Pow2Constants();
    if bit >= 64 {
      Pow2Monotone(64, bit);
    }
  }

  lemma ChannelOfByte(tr: Translation, r: Region, P: nat, l: Layout, bit: nat, i: nat, j: nat, b: nat)
    requires P > 0 && HugeRegion(tr, r, P) && ValidLayout(l) && bit < 64
    requires i < l.numChannels && j < Capacity(l) && b < l.elemSize
    ensures PhysicalByte(tr, r, P, l, i, j, b).At?
    ensures ComputeChannel(PhysicalByte(tr, r, P, l, i, j, b).paddr, bit) == ComputeChannel(r.paddr + b + Address(l, i, j), bit)
  {
    PhysicalByteIs(tr, r, P, l, i, j, b);
    ChannelOfWrapped(r.paddr + b + Address(l, i, j), bit);
    assert r.paddr + b + Address(l, i, j) == r.paddr + (Address(l, i, j) + b);
  }

  /**
   With a channel offset of 2^bit, two replicas of any element are on different channels
   exactly when their numbers differ in parity; for two channels, always.
   */
  lemma ReplicasOnDifferentChannels(tr: Translation, r: Region, P: nat, l: Layout, bit: nat, i: nat, k: nat, j: nat, b: nat)
    requires P > 0 && HugeRegion(tr, r, P) && ValidLayout(l) && l.channelOffset == Pow2(bit)
    requires i < k < l.numChannels && j < Capacity(l) && b < l.elemSize
    ensures var x, y := PhysicalByte(tr, r, P, l, i, j, b), PhysicalByte(tr, r, P, l, k, j, b);
      x.At? && y.At? && (ComputeChannel(x.paddr, bit) != ComputeChannel(y.paddr, bit) <==> (k - i) % 2 == 1)
      && (l.numChannels == 2 ==> ComputeChannel(x.paddr, bit) != ComputeChannel(y.paddr, bit))
  {
    ChannelBitFits(l, bit, j);
    ChannelOfByte(tr, r, P, l, bit, i, j, b);
    ChannelOfByte(tr, r, P, l, bit, k, j, b);
    ChannelsAlternate(l, r.paddr + b, bit, i, k - i, j);
  }

  /** compute_channel tells all replicas of an element apart exactly when there are at most two. */
  ghost predicate AllOnDifferentChannels(tr: Translation, r: Region, P: nat, l: Layout, bit: nat, n: nat, j: nat)
    requires P > 0 && l.elemSize > 0 && r.vaddr >= 0
  {
    forall i: nat, k: nat :: i < k < n ==>
      var x, y := PhysicalByte(tr, r, P, l, i, j, 0), PhysicalByte(tr, r, P, l, k, j, 0);
      x.At? && y.At? && ComputeChannel(x.paddr, bit) != ComputeChannel(y.paddr, bit)
  }

  lemma SanityCheckPassesForTwo(tr: Translation, r: Region, P: nat, l: Layout, bit: nat, n: nat, j: nat)
    requires P > 0 && HugeRegion(tr, r, P) && ValidLayout(l) && l.channelOffset == Pow2(bit)
    requires n <= l.numChannels && j < Capacity(l)
    ensures AllOnDifferentChannels(tr, r, P, l, bit, n, j) <==> n <= 2
  {
    if n <= 2 {
      if n == 2 {
        ReplicasOnDifferentChannels(tr, r, P, l, bit, 0, 1, j, 0);
      }
    } else {
      ReplicasOnDifferentChannels(tr, r, P, l, bit, 0, 2, j, 0);
    }
  }

  /**
   Any number of channels: when the region starts on a block boundary and its physical
   addresses do not wrap around, replica i of every element lies in a block whose number is
   congruent to (first block + i) modulo the channels.
   */
  lemma ReplicaBlock(tr: Translation, r: Region, P: nat, l: Layout, i: nat, j: nat, b: nat)
    requires P > 0 && HugeRegion(tr, r, P) && ValidLayout(l) && Rem(r.paddr, l.channelOffset) == 0
    requires r.paddr + r.size <= U64_LIMIT
    requires i < l.numChannels && j < Capacity(l) && b < l.elemSize
    ensures var x := PhysicalByte(tr, r, P, l, i, j, b);
      var first := Quot(r.paddr, l.channelOffset);
      x.At? && Chunk(l) > 0 && Quot(x.paddr, l.channelOffset) == first + Times(Quot(j, Chunk(l)), l.numChannels) + i
      && Rem(Quot(x.paddr, l.channelOffset), l.numChannels) == Rem(first + i, l.numChannels)
  {
    PhysicalByteIs(tr, r, P, l, i, j, b);
    AddressInBlock(l, i, j, b);
    var first, block := Quot(r.paddr, l.channelOffset), Times(Quot(j, Chunk(l)), l.numChannels) + i;
    AddBlocks(r.paddr, l.channelOffset, block, Address(l, i, j) + b);
    RemOfTimes(Quot(j, Chunk(l)), l.numChannels);
    RemOfSum(Times(Quot(j, Chunk(l)), l.numChannels), first + i, l.numChannels);
  }

  /** Inside the page, the bytes of an element lie in block (j / E) * C + i. */
  lemma AddressInBlock(l: Layout, i: nat, j: nat, b: nat)
    requires ValidLayout(l) && b < l.elemSize
    ensures Chunk(l) > 0
    ensures Quot(Address(l, i, j) + b, l.channelOffset) == Times(Quot(j, Chunk(l)), l.numChannels) + i
  {
    ChunkBytes(l);
    var E, S, O := Chunk(l), l.elemSize, l.channelOffset;
    var block, t := Times(Quot(j, E), l.numChannels) + i, Rem(j, E);
    QuotRem(j, E);
    DigitBelow(t, E, S, b);
    TimesAdd(Times(block, E), t, S);
    TimesTimes(block, E, S);
    QuotRem(Address(l, i, j) + b, O);
    SameDigits(O, Quot(Address(l, i, j) + b, O), Rem(Address(l, i, j) + b, O), block, Times(t, S) + b);
  }

  lemma AddBlocks(base: nat, O: nat, block: nat, x: nat)
    requires O > 0 && Rem(base, O) == 0 && Quot(x, O) == block
    ensures Quot(base + x, O) == Quot(base, O) + block
  {
    QuotRem(base, O);
    QuotRem(x, O);
    QuotRem(base + x, O);
    TimesAdd(Quot(base, O), block, O);
    SameDigits(O, Quot(base + x, O), Rem(base + x, O), Quot(base, O) + block, Rem(x, O));
  }

  lemma {:induction false} RemOfTimes(k: nat, d: nat)
    requires d > 0
    ensures Rem(Times(k, d), d) == 0
  {
    if k > 0 {
      RemOfTimes(k - 1, d);
    }
  }

  /**
   The Windows branch of setup_memory, up to the choice of the page: allocate, search the
   block, and give it back unless all of it is contiguous. It succeeds exactly when the
   attempt that stopped the retries is contiguous as a whole: a huge page inside a larger
   block is not enough.
   */
  method SetupMemory(os: Os) returns (ok: bool, region: Region, ghost attempts: seq<Attempt>)
    requires os.pageShift < 48
    modifies os
    ensures AreAttempts(attempts, Pow2(os.pageShift)) && StopsRight(attempts, HUGEPAGE_SIZE)
    ensures ok <==> EndsWhole(attempts, HUGEPAGE_SIZE)
    ensures ok ==> region == attempts[|attempts| - 1].region
    ensures !ok ==> os.live == old(os.live)
    ensures ok ==> HugeRegion(os.translation, region, Pow2(os.pageShift))
    ensures ok ==> 0 < region.vaddr < U64_LIMIT && region.size < U64_LIMIT && region.vaddr !in old(os.live)
    ensures ok ==> os.live == old(os.live)[region.vaddr := region.size]
  {
    var request := AllocationRequest(NULL, HUGEPAGE_SIZE, 4096, false);
    var alloc, memBegin;
    alloc, memBegin, attempts := AllocateLargePageMin(os, request);
    region := Region(0, 0, 0);
    if alloc.virtaddr == NULL {
      return false, region, attempts;
    }
    region := FindLargestPhysicalRegion(os.translation, alloc.virtaddr, alloc.sizeInBytes, alloc.pageSize, 0);
    ghost var P := Pow2(os.pageShift);
    ghost var n: nat :| alloc.sizeInBytes == Times(n, P);
    PageCountOfTimes(n, P);
    LargestRegionIsContiguous(os.translation, alloc.virtaddr, P, n, region);
    assert FindsLargest(attempts[|attempts| - 1], P) by {
      assert IsAttempt(attempts[|attempts| - 1], 5 + (|attempts| - 1), P);
    }
    LargestIsUnique(Pages(os.translation, alloc.virtaddr, P, n), alloc.virtaddr, P, region, memBegin);
    if region.size < alloc.sizeInBytes {
      var freed := os.VirtualFree(alloc.virtaddr);
      return false, region, attempts;
    }
    CheckersAgree(Pages(os.translation, alloc.virtaddr, P, n), alloc.virtaddr, P, region);
    return true, region, attempts;
  }
}
