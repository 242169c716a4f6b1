/**
 Allocation of a physically contiguous block by retrying with ever larger requests
 (allocateLargePageMin, tailslayer/include/tailslayer/utilities.hpp), against an
 operating system that is modelled by the blocks it has handed out.
 */
module LargePages {
  import opened Machine
  import opened Bits
  import opened Multiples
  import opened Contiguity

  const NULL: u64 := 0

  /** Address arithmetic inside a region: page k of it translates to its paddr plus k pages. */
  ghost predicate Contiguous(tr: Translation, r: Region, P: nat) {
    exists n: nat :: r.size == Times(n, P)
      && forall k: nat :: k < n ==> PageOf(tr, r.vaddr + Times(k, P)) == At(Add64(r.paddr, Times(k, P)))
  }

  lemma RunIsContiguous(tr: Translation, vaddr: int, P: nat, n: nat, s: nat, len: nat)
    requires s + len <= n && IsRun(Pages(tr, vaddr, P, n), P, s, s + len)
    ensures Contiguous(tr, RegionOf(Pages(tr, vaddr, P, n), vaddr, P, s, len), P)
  {
    var pages := Pages(tr, vaddr, P, n);
    var r := RegionOf(pages, vaddr, P, s, len);
    assert r.size == Times(len, P);
    forall k: nat | k < len
      ensures PageOf(tr, r.vaddr + Times(k, P)) == At(Add64(r.paddr, Times(k, P)))
    {
      assert IsRun(pages, P, s, s + k + 1);
      LastOfRun(pages, P, s, s + k + 1);
      PageAt(tr, vaddr, P, n, s + k);
      TimesAdd(s, k, P);
    }
  }

  /** The region that the scan reports is contiguous and lies inside the scanned pages. */
  lemma LargestRegionIsContiguous(tr: Translation, vaddr: int, P: nat, n: nat, r: Region)
    requires IsLargestRegion(Pages(tr, vaddr, P, n), vaddr, P, r)
    ensures Contiguous(tr, r, P)
    ensures 0 <= r.size <= Times(n, P)
    ensures r.size > 0 ==> vaddr <= r.vaddr && r.vaddr + r.size <= vaddr + Times(n, P)
  {
    var pages := Pages(tr, vaddr, P, n);
    var s: nat, len: nat :| Longest(pages, P, n, s, len) && r == RegionOf(pages, vaddr, P, s, len);
    RunIsContiguous(tr, vaddr, P, n, s, len);
    TimesAdd(s, len, P);
    TimesMonotone(s + len, n, P);
    TimesMonotone(len, n, P);
  }

  datatype AllocationRequest = AllocationRequest(virtaddr: u64, sizeInBytes: u64, pageSize: u64, verifyContiguous: bool)

  /** Multiples of the page size the allocator may ask for, with room for one more page. */
  ghost predicate Fitting(addr: u64, size: nat, P: nat) {
    addr + size + P <= U64_LIMIT
  }

  /** The operating system: the blocks that are allocated, and the current page tables. */
  class Os {
    var live: map<u64, u64>
    var translation: Translation
    const pageShift: nat

    constructor (pageShift: nat)
      requires pageShift < 48
      ensures live == map[] && this.pageShift == pageShift
    {
      live, translation := map[], map[];
      this.pageShift := pageShift;
    }

    /** GlobalMemoryStatusEx: some amount of memory, below 2^56 bytes. */
    method AvailablePhysicalMemory() returns (avail: nat)
      ensures avail < 0x100_0000_0000_0000
    {
      avail := *;
      if avail >= 0x100_0000_0000_0000 {
        avail := 0;
      }
    }

    /** VirtualAlloc: null, or a page-aligned block at an address not in use; the page tables change at will. */
    method VirtualAlloc(size: nat) returns (addr: u64)
      modifies this
      ensures addr == NULL ==> live == old(live)
      ensures addr != NULL ==> addr !in old(live) && size < U64_LIMIT && live == old(live)[addr := size]
      ensures addr != NULL ==> Fitting(addr, size, Pow2(pageShift)) && Rem(addr, Pow2(pageShift)) == 0
    {
      var candidate: nat := *;
      translation := *;
      var P := Pow2(pageShift);
      addr := NULL;
      if candidate + size + P <= U64_LIMIT && size < U64_LIMIT && Rem(candidate, P) == 0 {
        if candidate != NULL && candidate !in live {
          addr := candidate;
          live := live[addr := size];
        }
      }
    }

    /** VirtualFree(MEM_RELEASE): releases a block that is allocated. */
    method VirtualFree(addr: u64) returns (ok: bool)
      modifies this
      ensures ok <==> addr in old(live)
      ensures live == old(live) - {addr}
    {
      ok := addr in live;
      live := live - {addr};
      translation := *;
    }
  }

  /** Is the region a contiguous piece, at least the requested size, of the block? */
  ghost predicate Usable(tr: Translation, r: Region, P: nat, block: u64, blockSize: nat, requested: nat) {
    && Contiguous(tr, r, P) && requested <= r.size <= blockSize
    && (r.size > 0 ==> block <= r.vaddr && r.vaddr + r.size <= block + blockSize)
  }

  ghost predicate WholePagesOf(size: nat, P: nat) {
    exists n: nat :: size == Times(n, P)
  }

  /** One round of the retry loop: what was available, asked for and allocated, and the region found in it. */
  datatype Attempt = Attempt(avail: nat, size: nat, block: u64, translation: Translation, region: Region)

  /** The size asked for is the given percentage of the available memory, rounded down to bytes and up to pages. */
  ghost predicate AsksFor(a: Attempt, percent: nat, P: nat) {
    exists w: nat :: 100 * w <= percent * a.avail < 100 * (w + 1) && LeastPages(w, a.size, P)
  }

  /** size is the least multiple of P that covers w bytes. */
  ghost predicate LeastPages(w: nat, size: nat, P: nat) {
    WholePagesOf(size, P) && w <= size < w + P
  }

  /** The region found is the largest contiguous one of the attempt's block. */
  ghost predicate FindsLargest(a: Attempt, P: nat)
    requires P > 0
  {
    IsLargestRegion(Pages(a.translation, a.block, P, PageCount(a.size, P)), a.block, P, a.region)
  }

  ghost predicate IsAttempt(a: Attempt, percent: nat, P: nat)
    requires P > 0
  {
    AsksFor(a, percent, P) && FindsLargest(a, P)
  }

  /** The attempts so far, at 5, 6, 7, ... percent. */
  ghost predicate AreAttempts(attempts: seq<Attempt>, P: nat)
    requires P > 0
  {
    forall i :: 0 <= i < |attempts| ==> IsAttempt(attempts[i], 5 + i, P)
  }

  ghost predicate AllTooSmall(attempts: seq<Attempt>, requested: nat) {
    forall i :: 0 <= i < |attempts| ==> attempts[i].region.size < requested
  }

  /** The loop gives up after 75 attempts, or stops at the first region that is large enough. */
  ghost predicate StopsRight(attempts: seq<Attempt>, requested: nat) {
    && 1 <= |attempts| <= 75 && AllTooSmall(attempts[..|attempts| - 1], requested)
    && (attempts[|attempts| - 1].region.size < requested ==> |attempts| == 75)
  }

  /** When a failed allocation finds nothing, the answer is null exactly after 75 attempts that were all too small. */
  lemma NullMeansExhausted(attempts: seq<Attempt>, requested: nat)
    requires StopsRight(attempts, requested) && requested > 0
    requires forall i :: 0 <= i < |attempts| && attempts[i].block == NULL ==> attempts[i].region.size == 0
    ensures var last := attempts[|attempts| - 1];
      (if last.region.size < requested then NULL else last.block) == NULL <==>
      |attempts| == 75 && AllTooSmall(attempts, requested)
  {
    var n := |attempts| - 1;
    if attempts[n].region.size < requested {
      forall i | 0 <= i < |attempts|
        ensures attempts[i].region.size < requested
      {
        assert i < n ==> attempts[..n][i] == attempts[i];
      }
    }
  }

  /** The attempt that stopped the loop has a block, and all of it is contiguous and large enough. */
  ghost predicate EndsWhole(attempts: seq<Attempt>, requested: nat)
    requires attempts != []
  {
    var last := attempts[|attempts| - 1];
    last.block != NULL && requested <= last.region.size && last.size <= last.region.size
  }

  /** One attempt's size: memMul percent of what is available, rounded up to pages. */
  method AttemptSize(os: Os, memMul: nat) returns (size: nat, ghost avail: nat)
    requires memMul < 80 && os.pageShift < 48
    ensures exists w: nat :: 100 * w <= memMul * avail < 100 * (w + 1) && LeastPages(w, size, Pow2(os.pageShift))
    ensures Fitting(NULL, size, Pow2(os.pageShift))
  {
    var available := os.AvailablePhysicalMemory();
    avail := available;
    PercentBelow(memMul, available, 0x100_0000_0000_0000);
    var wanted := memMul * available / 100;
    size := RoundUp(wanted, Pow2(os.pageShift));
    RoundedUp(wanted, os.pageShift);
  }

  lemma PercentBelow(percent: nat, x: nat, bound: nat)
    requires percent <= 100 && x < bound
    ensures 0 <= percent * x / 100 < bound
  {
    assert percent * x <= 100 * x;
  }

  lemma RoundedUp(size: nat, m: nat)
    requires m < 48 && size < 0x100_0000_0000_0000
    ensures LeastPages(size, RoundUp(size, Pow2(m)), Pow2(m))
    ensures Fitting(NULL, RoundUp(size, Pow2(m)), Pow2(m))
  {
    Pow2Monotone(m, 48);
    Pow2Constants();
    RoundUpCoversPages(size, m);
  }

  /**
   allocateLargePageMin. The request's size is overwritten with the size of the last
   attempt, as in the source. The result is null when all 75 attempts are too small, or when
   the attempt that stops the loop had no block.
   */
  method AllocateLargePageMin(os: Os, request: AllocationRequest)
      returns (out: AllocationRequest, memBegin: Region, ghost attempts: seq<Attempt>)
    requires os.pageShift < 48
    modifies os
    ensures AreAttempts(attempts, Pow2(os.pageShift)) && StopsRight(attempts, request.sizeInBytes)
    ensures var last := attempts[|attempts| - 1];
      && out.virtaddr == (if last.region.size < request.sizeInBytes then NULL else last.block)
      && out.sizeInBytes == last.size && memBegin == last.region
      && (out.virtaddr != NULL ==> os.translation == last.translation)
    ensures out.virtaddr == NULL ==> os.live == old(os.live)
    ensures out.virtaddr != NULL ==> out.virtaddr !in old(os.live) && os.live == old(os.live)[out.virtaddr := out.sizeInBytes]
    ensures out.virtaddr != NULL ==>
      Usable(os.translation, memBegin, Pow2(os.pageShift), out.virtaddr, out.sizeInBytes, request.sizeInBytes)
    ensures out.virtaddr != NULL ==> Fitting(out.virtaddr, out.sizeInBytes, Pow2(os.pageShift))
    ensures out.virtaddr != NULL ==> Rem(out.virtaddr, Pow2(os.pageShift)) == 0
    ensures out.pageSize == Pow2(os.pageShift) && out.verifyContiguous
    ensures WholePagesOf(out.sizeInBytes, Pow2(os.pageShift))
  {
    var P := Pow2(os.pageShift);
    var memMul, failure, outVirtAddr, allocAttemptSize := 5, true, NULL, 0;
    memBegin := Region(0, 0, 0);
    attempts := [];
    assert Times(0, P) == 0;
    Pow2Monotone(os.pageShift, 48);
    Pow2Constants();
    while memMul < 80
      invariant 5 <= memMul <= 80 && failure
      invariant |attempts| == memMul - 5 && AreAttempts(attempts, P) && AllTooSmall(attempts, request.sizeInBytes)
      invariant os.live == old(os.live)
      invariant Fitting(NULL, allocAttemptSize, P) && WholePagesOf(allocAttemptSize, P)
      invariant attempts != [] ==> LastIs(attempts, allocAttemptSize, memBegin)
    {
      ghost var attempt;
      allocAttemptSize, outVirtAddr, memBegin, attempt := TryAllocation(os, memMul);
      OneAttemptMore(attempts, attempt, P, request.sizeInBytes);
      attempts := attempts + [attempt];
      failure := memBegin.size < request.sizeInBytes;
      if failure {
        if outVirtAddr != NULL {
          var freed := false;
          while !freed
            invariant freed ==> os.live == old(os.live)
            invariant !freed ==> outVirtAddr !in old(os.live) && os.live == old(os.live)[outVirtAddr := allocAttemptSize]
            decreases !freed
          {
            freed := os.VirtualFree(outVirtAddr);
          }
        }
      } else {
        break;
      }
      memMul := memMul + 1;
    }
    out := AllocationRequest(if failure then NULL else outVirtAddr, allocAttemptSize, P, true);
  }

  ghost predicate LastIs(attempts: seq<Attempt>, size: nat, region: Region)
    requires attempts != []
  {
    attempts[|attempts| - 1].size == size && attempts[|attempts| - 1].region == region
  }

  lemma OneAttemptMore(attempts: seq<Attempt>, a: Attempt, P: nat, requested: nat)
    requires P > 0 && AreAttempts(attempts, P) && AllTooSmall(attempts, requested) && IsAttempt(a, 5 + |attempts|, P)
    ensures AreAttempts(attempts + [a], P) && (attempts + [a])[..|attempts|] == attempts
    ensures a.region.size < requested ==> AllTooSmall(attempts + [a], requested)
  {
  }

  /** One round up to the size test: allocate, and search the block. */
  method TryAllocation(os: Os, memMul: nat) returns (size: nat, addr: u64, region: Region, ghost attempt: Attempt)
    requires 5 <= memMul < 80 && os.pageShift < 48
    modifies os
    ensures IsAttempt(attempt, memMul, Pow2(os.pageShift))
    ensures attempt.size == size && attempt.block == addr && attempt.region == region && attempt.translation == os.translation
    ensures addr == NULL ==> os.live == old(os.live)
    ensures addr != NULL ==> addr !in old(os.live) && size < U64_LIMIT && os.live == old(os.live)[addr := size]
    ensures addr != NULL ==> Fitting(addr, size, Pow2(os.pageShift)) && Rem(addr, Pow2(os.pageShift)) == 0
    ensures Fitting(NULL, size, Pow2(os.pageShift)) && WholePagesOf(size, Pow2(os.pageShift))
    ensures Contiguous(os.translation, region, Pow2(os.pageShift)) && 0 <= region.size <= size
    ensures region.size > 0 ==> addr <= region.vaddr && region.vaddr + region.size <= addr + size
  {
    var P := Pow2(os.pageShift);
    Pow2Monotone(os.pageShift, 48);
    Pow2Constants();
    ghost var avail;
    size, avail := AttemptSize(os, memMul);
    addr := os.VirtualAlloc(size);
    region := FindLargestPhysicalRegion(os.translation, addr, size, P, 0);
    ghost var n: nat :| size == Times(n, P);
    PageCountOfTimes(n, P);
    LargestRegionIsContiguous(os.translation, addr, P, n, region);
    attempt := Attempt(avail, size, addr, os.translation, region);
  }
}
