/**
 The hedged vector (tailslayer/include/tailslayer/hedged_reader.hpp): every element is
 stored once per replica, with the replicas of a chunk in consecutive channel blocks.
 */
module HedgedVector {
  import opened Bits
  import opened Multiples

  const HUGEPAGE_SIZE: nat := 0x4000_0000
  const FILL: bv8 := 0x42
  const CORE_MEAS_B: nat := 2
  const CORE_MEAS_A: nat := 1

  /** sizeof(T), the distance between channels in bytes, and the number of channels. */
  datatype Layout = Layout(elemSize: nat, channelOffset: nat, numChannels: nat)

  ghost predicate IsPow2(x: int) {
    exists e: nat :: x == Pow2(e)
  }

  /** Elements per chunk. */
  function Chunk(l: Layout): nat
    requires l.elemSize > 0
  {
    Quot(l.channelOffset, l.elemSize)
  }

  /** The constructor's assertions, and a chunk length that shift and mask can handle. */
  ghost predicate ValidLayout(l: Layout) {
    && l.elemSize > 0 && l.channelOffset > 0 && l.numChannels > 0
    && Rem(l.channelOffset, l.elemSize) == 0
    && IsPow2(Chunk(l))
  }

  /** __builtin_ctzll */
  function CountTrailingZeros(x: nat): nat
    requires x > 0
  {
    if x % 2 == 1 then 0 else CountTrailingZeros(x / 2) + 1
  }

  lemma {:induction false} TrailingZerosOfPow2(e: nat)
    ensures CountTrailingZeros(Pow2(e)) == e
  {
    if e > 0 {
      TrailingZerosOfPow2(e - 1);
    }
  }

  /** Shift and mask compute quotient and remainder for chunks of length x. */
  ghost predicate ShiftMaskWork(x: nat)
    requires x > 0
  {
    forall j: nat :: ShiftRight(j, CountTrailingZeros(x)) == Quot(j, x) && And(j, x - 1) == Rem(j, x)
  }

  /** They do exactly when the chunk length is a power of two. */
  lemma ShiftMaskNeedPow2(x: nat)
    requires x > 0
    ensures ShiftMaskWork(x) <==> IsPow2(x)
  {
    if IsPow2(x) {
      var e: nat :| x == Pow2(e);
      TrailingZerosOfPow2(e);
      forall j: nat
        ensures ShiftRight(j, e) == Quot(j, x) && And(j, x - 1) == Rem(j, x)
      {
        ShiftMaskDivMod(j, e);
        QuotRemAreDivMod(j, x);
      }
    }
    if ShiftMaskWork(x) {
      var p := CountTrailingZeros(x);
      OddPart(x);
      Pow2IsShift(p);
      ShiftBack(1, p);
      assert Quot(Pow2(p), x) == 1;
      assert x == Pow2(p);
    }
  }

  /** 2^ctz(x) is at most x. */
  lemma {:induction false} OddPart(x: nat)
    requires x > 0
    ensures Pow2(CountTrailingZeros(x)) <= x
  {
    if x % 2 == 0 {
      OddPart(x / 2);
    }
  }

  // Where an element lives. In units of elements from the start of the page: chunk j / E
  // of replica i is block (j / E) * C + i of E elements.

  function Slot(E: nat, C: nat, i: nat, j: nat): nat
    requires E > 0
  {
    Times(Times(Quot(j, E), C) + i, E) + Rem(j, E)
  }

  /** Different (replica, index) pairs have different slots. */
  lemma SlotIsInjective(E: nat, C: nat, i: nat, j: nat, i': nat, j': nat)
    requires E > 0 && i < C && i' < C && Slot(E, C, i, j) == Slot(E, C, i', j')
    ensures i == i' && j == j'
  {
    QuotRem(j, E);
    QuotRem(j', E);
    SameDigits(E, Times(Quot(j, E), C) + i, Rem(j, E), Times(Quot(j', E), C) + i', Rem(j', E));
    SameDigits(C, Quot(j, E), i, Quot(j', E), i');
  }

  /** Indices below strides * E stay in the first strides * C blocks. */
  lemma SlotInRange(E: nat, C: nat, strides: nat, i: nat, j: nat)
    requires E > 0 && i < C && j < Times(strides, E)
    ensures Slot(E, C, i, j) < Times(Times(strides, C), E)
  {
    QuotRem(j, E);
    QuotBelow(j, strides, E);
    DigitBelow(Quot(j, E), strides, C, i);
    DigitBelow(Times(Quot(j, E), C) + i, Times(strides, C), E, Rem(j, E));
  }

  /** The address of element j in replica i, from the start of the page. */
  function Address(l: Layout, i: nat, j: nat): nat
    requires l.elemSize > 0
  {
    if Chunk(l) == 0 then 0 else Times(Slot(Chunk(l), l.numChannels, i, j), l.elemSize)
  }

  lemma ChunkBytes(l: Layout)
    requires ValidLayout(l)
    ensures Chunk(l) > 0 && l.channelOffset == Times(Chunk(l), l.elemSize)
    ensures Times(l.numChannels, l.channelOffset) > 0
  {
    QuotRem(l.channelOffset, l.elemSize);
    TimesMonotone(1, l.numChannels, l.channelOffset);
  }

  /** The number of elements that fit: whole strides over all channels in the huge page. */
  function Capacity(l: Layout): nat
    requires l.elemSize > 0
  {
    if Times(l.numChannels, l.channelOffset) == 0 then 0
    else Times(Quot(HUGEPAGE_SIZE, Times(l.numChannels, l.channelOffset)), Chunk(l))
  }

  /** The address in plain arithmetic: block (j / E) * C + i of channelOffset bytes, position j mod E in it. */
  lemma AddressIs(l: Layout, i: nat, j: nat)
    requires ValidLayout(l)
    ensures var E := l.channelOffset / l.elemSize;
      E > 0 && Address(l, i, j) == (j / E * l.numChannels + i) * l.channelOffset + j % E * l.elemSize
  {
    AddressSplits(l, i, j);
    QuotRemAreDivMod(l.channelOffset, l.elemSize);
    QuotRemAreDivMod(j, Chunk(l));
    PlainProducts(j / Chunk(l), l.numChannels, i, l.channelOffset, j % Chunk(l), l.elemSize);
  }

  lemma AddressSplits(l: Layout, i: nat, j: nat)
    requires ValidLayout(l)
    ensures Chunk(l) > 0
    ensures Address(l, i, j) ==
      Times(Times(Quot(j, Chunk(l)), l.numChannels) + i, l.channelOffset) + Times(Rem(j, Chunk(l)), l.elemSize)
  {
    ChunkBytes(l);
    var E := Chunk(l);
    var block := Times(Quot(j, E), l.numChannels) + i;
    TimesAdd(Times(block, E), Rem(j, E), l.elemSize);
    TimesTimes(block, E, l.elemSize);
  }

  lemma PlainProducts(q: nat, C: nat, i: nat, O: nat, r: nat, S: nat)
    ensures Times(Times(q, C) + i, O) + Times(r, S) == (q * C + i) * O + r * S
  {
    TimesIsProduct(q, C);
    TimesIsProduct(Times(q, C) + i, O);
    TimesIsProduct(r, S);
  }

  /** A further stride would not fit: the last byte of its last replica is beyond the huge page. */
  lemma CapacityIsLargest(l: Layout)
    requires ValidLayout(l)
    ensures Chunk(l) > 0
    ensures Address(l, l.numChannels - 1, Capacity(l) + Chunk(l) - 1) + l.elemSize > HUGEPAGE_SIZE
  {
    ChunkBytes(l);
    var E, C, S := Chunk(l), l.numChannels, l.elemSize;
    var stride := Times(C, l.channelOffset);
    var strides := Quot(HUGEPAGE_SIZE, stride);
    LastSlot(E, C, strides);
    TimesTimes(Times(strides + 1, C), E, S);
    TimesTimes(strides + 1, C, l.channelOffset);
    QuotRem(HUGEPAGE_SIZE, stride);
  }

  lemma LastSlot(E: nat, C: nat, strides: nat)
    requires E > 0 && C > 0
    ensures Slot(E, C, C - 1, Times(strides, E) + E - 1) + 1 == Times(Times(strides + 1, C), E)
  {
    var j := Times(strides, E) + (E - 1);
    QuotRem(j, E);
    SameDigits(E, Quot(j, E), Rem(j, E), strides, E - 1);
    TimesAdd(Times(strides, C) + (C - 1), 1, E);
  }

  /** Every replica of every index below the capacity lies inside the huge page. */
  lemma AddressInPage(l: Layout, i: nat, j: nat)
    requires ValidLayout(l) && i < l.numChannels && j < Capacity(l)
    ensures Address(l, i, j) + l.elemSize <= HUGEPAGE_SIZE
  {
    ChunkBytes(l);
    var E, C, S := Chunk(l), l.numChannels, l.elemSize;
    var stride := Times(C, l.channelOffset);
    var strides := Quot(HUGEPAGE_SIZE, stride);
    SlotInRange(E, C, strides, i, j);
    TimesMonotone(Slot(E, C, i, j) + 1, Times(Times(strides, C), E), S);
    TimesTimes(Times(strides, C), E, S);
    TimesTimes(strides, C, l.channelOffset);
    QuotRem(HUGEPAGE_SIZE, stride);
  }

  /** Different (replica, index) pairs occupy disjoint bytes. */
  lemma AddressesDisjoint(l: Layout, i: nat, j: nat, i': nat, j': nat)
    requires ValidLayout(l) && i < l.numChannels && i' < l.numChannels && (i != i' || j != j')
    ensures Apart(Address(l, i, j), Address(l, i', j'), l.elemSize)
  {
    ChunkBytes(l);
    var E, C := Chunk(l), l.numChannels;
    var a, b := Slot(E, C, i, j), Slot(E, C, i', j');
    if a < b {
      TimesMonotone(a + 1, b, l.elemSize);
    } else if b < a {
      TimesMonotone(b + 1, a, l.elemSize);
    } else {
      SlotIsInjective(E, C, i, j, i', j');
    }
  }

  predicate Apart(a: nat, b: nat, size: nat) {
    a + size <= b || b + size <= a
  }

  /** The arithmetic of get_next_logical_index_address on the precomputed values. */
  function ElementOffset(chunkShift: nat, chunkMask: nat, strideInElements: nat, logicalIndex: nat): nat {
    var chunkIdx := ShiftRight(logicalIndex, chunkShift);
    var offsetInChunk := And(logicalIndex, chunkMask);
    chunkIdx * strideInElements + offsetInChunk
  }

  /** It places element j of replica i, whose base is i channel offsets into the page, at its slot. */
  lemma AddressOfElement(l: Layout, i: nat, j: nat, stride: nat)
    requires ValidLayout(l) && stride == Times(l.numChannels, Chunk(l))
    ensures Chunk(l) > 0
    ensures i * l.channelOffset + ElementOffset(CountTrailingZeros(Chunk(l)), Chunk(l) - 1, stride, j) * l.elemSize
         == Address(l, i, j)
  {
    ChunkBytes(l);
    var E, C, S := Chunk(l), l.numChannels, l.elemSize;
    ShiftMaskNeedPow2(E);
    assert ShiftMaskWork(E);
    var q, r := Quot(j, E), Rem(j, E);
    assert ShiftRight(j, CountTrailingZeros(E)) == q && And(j, E - 1) == r;
    TimesIsProduct(q, stride);
    TimesIsProduct(i, l.channelOffset);
    TimesIsProduct(Times(q, stride) + r, S);
    Regroup(i, E, C, S, q, r);
  }

  lemma Regroup(i: nat, E: nat, C: nat, S: nat, q: nat, r: nat)
    ensures Times(i, Times(E, S)) + Times(Times(q, Times(C, E)) + r, S) == Times(Times(Times(q, C) + i, E) + r, S)
  {
    TimesTimes(i, E, S);
    TimesTimes(q, C, E);
    TimesAdd(Times(q, C), i, E);
    TimesAdd(Times(Times(q, C), E), r, S);
    TimesAdd(Times(i, E), Times(Times(q, C), E) + r, S);
    TimesAdd(Times(Times(q, C), E) + r, Times(i, E), S);
  }

  // The reader.

  type Element = seq<bv8>

  /** The bytes of the page at off .. off + size. */
  ghost function Slice(page: seq<bv8>, off: nat, size: nat): Element {
    if off + size <= |page| then page[off..off + size] else []
  }

  ghost predicate Untouched(before: seq<bv8>, after: seq<bv8>, off: nat, size: nat) {
    |after| == |before| && forall b :: 0 <= b < |before| && (b < off || off + size <= b) ==> after[b] == before[b]
  }

  lemma SliceUntouched(before: seq<bv8>, after: seq<bv8>, off: nat, other: nat, size: nat)
    requires Untouched(before, after, off, size) && Apart(off, other, size)
    ensures Slice(after, other, size) == Slice(before, other, size)
  {
  }

  /** Replica i stores v as element j. */
  ghost predicate Stores(page: seq<bv8>, l: Layout, i: nat, j: nat, v: Element)
    requires l.elemSize > 0
  {
    Slice(page, Address(l, i, j), l.elemSize) == v
  }

  /** Writing one element changes no other. */
  lemma WriteKeepsOthers(before: seq<bv8>, after: seq<bv8>, l: Layout, i: nat, j: nat, k: nat, m: nat, v: Element)
    requires ValidLayout(l) && i < l.numChannels && k < l.numChannels && (k != i || m != j)
    requires Untouched(before, after, Address(l, i, j), l.elemSize)
    ensures Stores(before, l, k, m, v) <==> Stores(after, l, k, m, v)
  {
    AddressesDisjoint(l, i, j, k, m);
    SliceUntouched(before, after, Address(l, i, j), Address(l, k, m), l.elemSize);
  }

  ghost function Filler(l: Layout): Element {
    seq(l.elemSize, _ => FILL)
  }

  /** What element j of every replica should hold: the j-th inserted value, or the fill pattern. */
  ghost function ValueAt(l: Layout, contents: seq<Element>, j: nat): Element {
    if j < |contents| then contents[j] else Filler(l)
  }

  /** The first n replicas hold the contents in order, and the fill pattern beyond them. */
  ghost predicate Holds(page: seq<bv8>, l: Layout, n: nat, contents: seq<Element>)
    requires l.elemSize > 0
  {
    forall i: nat, j: nat :: i < n && j < Capacity(l) ==> Stores(page, l, i, j, ValueAt(l, contents, j))
  }

  /** In the middle of an insert, the first i replicas already have the new value. */
  ghost function HalfwayValue(l: Layout, contents: seq<Element>, val: Element, i: nat, k: nat, j: nat): Element {
    if k < i && j == |contents| then val else ValueAt(l, contents, j)
  }

  ghost predicate HalfInserted(page: seq<bv8>, l: Layout, n: nat, contents: seq<Element>, val: Element, i: nat)
    requires l.elemSize > 0
  {
    forall k: nat, j: nat :: k < n && j < Capacity(l) ==> Stores(page, l, k, j, HalfwayValue(l, contents, val, i, k, j))
  }

  lemma InsertStarts(page: seq<bv8>, l: Layout, n: nat, contents: seq<Element>, val: Element)
    requires l.elemSize > 0 && Holds(page, l, n, contents)
    ensures HalfInserted(page, l, n, contents, val, 0)
  {
  }

  lemma InsertOne(before: seq<bv8>, after: seq<bv8>, l: Layout, n: nat, contents: seq<Element>, val: Element, i: nat)
    requires ValidLayout(l) && n <= l.numChannels && i < n
    requires HalfInserted(before, l, n, contents, val, i)
    requires Untouched(before, after, Address(l, i, |contents|), l.elemSize) && Stores(after, l, i, |contents|, val)
    ensures HalfInserted(after, l, n, contents, val, i + 1)
  {
    var next := i + 1;
    forall k: nat, j: nat | k < n && j < Capacity(l)
      ensures Stores(after, l, k, j, HalfwayValue(l, contents, val, next, k, j))
    {
      if k != i || j != |contents| {
        var v := HalfwayValue(l, contents, val, i, k, j);
        assert Stores(before, l, k, j, v);
        WriteKeepsOthers(before, after, l, i, |contents|, k, j, v);
      }
    }
  }

  lemma InsertEnds(page: seq<bv8>, l: Layout, n: nat, contents: seq<Element>, val: Element)
    requires l.elemSize > 0 && HalfInserted(page, l, n, contents, val, n)
    ensures Holds(page, l, n, contents + [val])
  {
    forall i: nat, j: nat | i < n && j < Capacity(l)
      ensures Stores(page, l, i, j, ValueAt(l, contents + [val], j))
    {
      assert Stores(page, l, i, j, HalfwayValue(l, contents, val, n, i, j));
      assert ValueAt(l, contents + [val], j) == HalfwayValue(l, contents, val, n, i, j);
    }
  }

  class HedgedReader {
    const layout: Layout
    const replicaCount: nat
    var logicalIndex: nat
    const capacity: nat
    const chunkShift: nat
    const chunkMask: nat
    const strideInElements: nat
    const replicas: seq<nat>  // base addresses, relative to the start of the page
    const cores: array<nat>
    const page: array<bv8>
    ghost var contents: seq<Element>

    ghost predicate Precomputed() {
      && ValidLayout(layout) && 1 <= replicaCount <= layout.numChannels
      && capacity == Capacity(layout)
      && Chunk(layout) > 0 && chunkShift == CountTrailingZeros(Chunk(layout)) && chunkMask == Chunk(layout) - 1
      && strideInElements == Times(layout.numChannels, Chunk(layout))
      && |replicas| == replicaCount
      && forall i: nat :: i < replicaCount ==> replicas[i] == Times(i, layout.channelOffset)
    }

    ghost predicate Valid()
      reads this, page
    {
      && Precomputed() && page.Length == HUGEPAGE_SIZE
      && logicalIndex == |contents| && (logicalIndex > 0 ==> logicalIndex < capacity)
      && Holds(page[..], layout, replicaCount, contents)
    }

    /** The constructor with setup_replica_cores and setup_memory; addresses are relative to the page. */
    constructor (channelOffset: nat, numChannels: nat, elemSize: nat, n: nat)
      requires ValidLayout(Layout(elemSize, channelOffset, numChannels)) && 1 <= n <= numChannels
      ensures Valid() && layout == Layout(elemSize, channelOffset, numChannels) && replicaCount == n
      ensures contents == []
      ensures fresh(page) && fresh(cores)
      ensures cores.Length == n && forall i :: 0 <= i < n ==> cores[i] == i + 1
    {
      var l := Layout(elemSize, channelOffset, numChannels);
      PrecomputedValues(l);
      var elementsPerChunk := channelOffset / elemSize;
      var strideBytes := numChannels * channelOffset;
      var maxStrides := HUGEPAGE_SIZE / strideBytes;
      var bases := ReplicaBases(channelOffset, n);
      var coreList := ReplicaCores(numChannels, n);
      layout, replicaCount := l, n;
      logicalIndex, contents := 0, [];
      capacity := maxStrides * elementsPerChunk;
      chunkShift := CountTrailingZeros(elementsPerChunk);
      chunkMask := elementsPerChunk - 1;
      strideInElements := numChannels * channelOffset / elemSize;
      cores := coreList;
      replicas := bases;
      page := new bv8[HUGEPAGE_SIZE](_ => FILL);
      new;
      FreshPageHolds(page[..], layout, replicaCount);
    }

    /** The base setup at the end of setup_memory. */
    static method ReplicaBases(channelOffset: nat, n: nat) returns (bases: seq<nat>)
      ensures |bases| == n && forall i: nat :: i < n ==> bases[i] == Times(i, channelOffset)
    {
      bases := [];
      for i := 0 to n
        invariant |bases| == i && forall k: nat :: k < i ==> bases[k] == Times(k, channelOffset)
      {
        TimesIsProduct(i, channelOffset);
        bases := bases + [i * channelOffset];
      }
    }

    /** setup_replica_cores */
    static method ReplicaCores(numChannels: nat, n: nat) returns (cores: array<nat>)
      requires 1 <= n <= numChannels
      ensures fresh(cores) && cores.Length == n && forall i :: 0 <= i < n ==> cores[i] == i + 1
    {
      cores := new nat[n](_ => 0);
      cores[0] := CORE_MEAS_A;
      if numChannels > 1 && n > 1 {
        cores[1] := CORE_MEAS_B;
      }
      var i := 2;
      while i < n
        invariant 2 <= i
        invariant forall k :: 0 <= k < i && k < n ==> cores[k] == k + 1
      {
        cores[i] := CORE_MEAS_B + i - 1;
        i := i + 1;
      }
    }

    /** get_next_logical_index_address */
    method NextLogicalIndexAddress(replicaIdx: nat, index: nat) returns (a: nat)
      requires Precomputed() && replicaIdx < replicaCount
      ensures a == Address(layout, replicaIdx, index)
    {
      a := replicas[replicaIdx] + ElementOffset(chunkShift, chunkMask, strideInElements, index) * layout.elemSize;
      TimesIsProduct(replicaIdx, layout.channelOffset);
      AddressOfElement(layout, replicaIdx, index, strideInElements);
    }

    method Store(off: nat, val: Element)
      requires off + |val| <= page.Length
      modifies page
      ensures Slice(page[..], off, |val|) == val
      ensures Untouched(old(page[..]), page[..], off, |val|)
    {
      forall b | off <= b < off + |val| {
        page[b] := val[b - off];
      }
      assert page[off..off + |val|] == val;
    }

    /** insert: one copy per replica. A false result is a failed assertion, which stops the program. */
    method Insert(val: Element) returns (ok: bool)
      requires Valid() && |val| == layout.elemSize
      modifies this, page
      ensures Valid()
      ensures ok <==> old(logicalIndex) + 1 < capacity
      ensures ok ==> contents == old(contents) + [val]
      ensures !ok ==> contents == old(contents) && page[..] == old(page[..])
    {
      if logicalIndex + 1 >= capacity {
        return false;
      }
      InsertStarts(page[..], layout, replicaCount, contents, val);
      for i := 0 to replicaCount
        invariant Precomputed() && page.Length == HUGEPAGE_SIZE
        invariant logicalIndex == old(logicalIndex) && contents == old(contents)
        invariant HalfInserted(page[..], layout, replicaCount, contents, val, i)
      {
        var target := NextLogicalIndexAddress(i, logicalIndex);
        AddressInPage(layout, i, logicalIndex);
        ghost var before := page[..];
        Store(target, val);
        InsertOne(before, page[..], layout, replicaCount, contents, val, i);
      }
      InsertEnds(page[..], layout, replicaCount, contents, val);
      logicalIndex := logicalIndex + 1;
      contents := contents + [val];
      return true;
    }

    /** The read in worker_func: any replica returns the element inserted under that index. */
    method Read(workerIdx: nat, readIndex: nat) returns (val: Element)
      requires Valid() && workerIdx < replicaCount && readIndex < capacity
      ensures val == if readIndex < |contents| then contents[readIndex] else Filler(layout)
    {
      var target := NextLogicalIndexAddress(workerIdx, readIndex);
      AddressInPage(layout, workerIdx, readIndex);
      val := page[target..target + layout.elemSize];
      assert page[..][target..target + layout.elemSize] == val;
      assert Stores(page[..], layout, workerIdx, readIndex, ValueAt(layout, contents, readIndex));
    }
  }

  // The bound of insert.

  /** The logical index after n attempts, each of which advances it unless the assertion fails. */
  function IndexAfter(n: nat, capacity: nat): nat {
    if n == 0 then 0
    else
      var before := IndexAfter(n - 1, capacity);
      if before + 1 < capacity then before + 1 else before
  }

  /** Exactly the first capacity - 1 inserts are accepted. */
  lemma {:induction false} LastSlotIsRefused(n: nat, capacity: nat)
    ensures IndexAfter(n, capacity) == if n < capacity then n else if capacity == 0 then 0 else capacity - 1
    ensures IndexAfter(n, capacity) + 1 < capacity <==> n + 1 < capacity
  {
    if n > 0 {
      LastSlotIsRefused(n - 1, capacity);
    }
  }

  /** The slot that is never used is in the page and apart from all others. */
  lemma LastSlotWouldFit(l: Layout, i: nat, k: nat, m: nat)
    requires ValidLayout(l) && Capacity(l) > 0 && i < l.numChannels && k < l.numChannels && m < Capacity(l) - 1
    ensures Address(l, i, Capacity(l) - 1) + l.elemSize <= HUGEPAGE_SIZE
    ensures Apart(Address(l, i, Capacity(l) - 1), Address(l, k, m), l.elemSize)
  {
    AddressInPage(l, i, Capacity(l) - 1);
    AddressesDisjoint(l, i, Capacity(l) - 1, k, m);
  }

  /** The constructor's products and quotients. */
  lemma PrecomputedValues(l: Layout)
    requires ValidLayout(l)
    ensures l.channelOffset / l.elemSize == Chunk(l) > 0
    ensures l.numChannels * l.channelOffset == Times(l.numChannels, l.channelOffset) > 0
    ensures HUGEPAGE_SIZE / (l.numChannels * l.channelOffset) * (l.channelOffset / l.elemSize) == Capacity(l)
    ensures l.numChannels * l.channelOffset / l.elemSize == Times(l.numChannels, Chunk(l))
  {
    ChunkBytes(l);
    QuotRemAreDivMod(l.channelOffset, l.elemSize);
    var stride := Times(l.numChannels, l.channelOffset);
    TimesIsProduct(l.numChannels, l.channelOffset);
    QuotRemAreDivMod(HUGEPAGE_SIZE, stride);
    TimesIsProduct(Quot(HUGEPAGE_SIZE, stride), Chunk(l));
    TimesTimes(l.numChannels, Chunk(l), l.elemSize);
    TimesIsProduct(Times(l.numChannels, Chunk(l)), l.elemSize);
    DivModUnique(stride, l.elemSize, Times(l.numChannels, Chunk(l)), 0);
  }

  lemma FreshPageHolds(page: seq<bv8>, l: Layout, n: nat)
    requires ValidLayout(l) && n <= l.numChannels
    requires |page| == HUGEPAGE_SIZE && forall b :: 0 <= b < |page| ==> page[b] == FILL
    ensures Holds(page, l, n, [])
  {
    forall i: nat, j: nat | i < n && j < Capacity(l)
      ensures Stores(page, l, i, j, ValueAt(l, [], j))
    {
      AddressInPage(l, i, j);
    }
  }
}
