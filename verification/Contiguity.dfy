/**
 Search for physically contiguous memory (FindLargestPhysicalRegion and
 verifyHugePageIsContiguous, tailslayer/include/tailslayer/utilities.hpp).
 */
module Contiguity {
  import opened Machine
  import opened Bits
  import opened Multiples

  /** VMMDLL_MemVirt2Phys: which virtual addresses translate, and to what. */
  type Translation = map<u64, u64>

  datatype Region = Region(vaddr: int, paddr: int, size: int)

  datatype Page = Unmapped | At(paddr: u64)

  function PageOf(tr: Translation, v: int): Page {
    if 0 <= v < U64_LIMIT && v in tr && tr[v] != U64_MAX then At(tr[v]) else Unmapped
  }

  /** The first n pages of size P from vaddr on. */
  function Pages(tr: Translation, vaddr: int, P: nat, n: nat): (pages: seq<Page>)
    ensures |pages| == n
  {
    if n == 0 then [] else Pages(tr, vaddr, P, n - 1) + [PageOf(tr, vaddr + Times(n - 1, P))]
  }

  lemma {:induction false} PageAt(tr: Translation, vaddr: int, P: nat, n: nat, k: nat)
    requires k < n
    ensures Pages(tr, vaddr, P, n)[k] == PageOf(tr, vaddr + Times(k, P))
  {
    if k < n - 1 {
      PageAt(tr, vaddr, P, n - 1, k);
    }
  }

  /** Page i is mapped directly behind page i - 1. */
  predicate Follows(pages: seq<Page>, P: nat, i: nat)
    requires 0 < i < |pages|
  {
    pages[i - 1].At? && pages[i].At? && pages[i].paddr == Add64(pages[i - 1].paddr, P)
  }

  /** Pages i .. j - 1 are mapped to consecutive physical pages. */
  ghost predicate IsRun(pages: seq<Page>, P: nat, i: nat, j: nat) {
    && i <= j <= |pages|
    && (forall k :: i <= k < j ==> pages[k].At?)
    && (forall k :: i < k < j ==> Follows(pages, P, k))
  }

  /** The length of the longest run that ends at j. */
  function RunLength(pages: seq<Page>, P: nat, j: nat): (m: nat)
    requires j <= |pages|
    ensures m <= j
  {
    if j == 0 || pages[j - 1].Unmapped? then 0
    else if j > 1 && Follows(pages, P, j - 1) then RunLength(pages, P, j - 1) + 1
    else 1
  }

  lemma {:induction false} RunsEndingAt(pages: seq<Page>, P: nat, i: nat, j: nat)
    requires i <= j <= |pages|
    ensures IsRun(pages, P, i, j) <==> j - i <= RunLength(pages, P, j)
    decreases j
  {
    if i < j {
      RunsEndingAt(pages, P, i, j - 1);
      if j > 1 {
        RunLengthPositive(pages, P, j - 1);
      }
    }
  }

  lemma RunLengthPositive(pages: seq<Page>, P: nat, j: nat)
    requires 0 < j <= |pages|
    ensures RunLength(pages, P, j) > 0 <==> pages[j - 1].At?
  {
  }

  /** Among the first k pages, s is where the longest run starts, leftmost among equals. */
  ghost predicate Longest(pages: seq<Page>, P: nat, k: nat, s: nat, len: nat) {
    && s + len <= k && IsRun(pages, P, s, s + len) && (len == 0 ==> s == 0)
    && forall i: nat, j: nat :: i <= j <= k && IsRun(pages, P, i, j) ==> j - i <= len && (j - i == len && len > 0 ==> s <= i)
  }

  lemma LongestStep(pages: seq<Page>, P: nat, k: nat, s: nat, len: nat)
    requires k < |pages| && Longest(pages, P, k, s, len)
    ensures RunLength(pages, P, k + 1) <= len + 1
    ensures var m := RunLength(pages, P, k + 1);
      if m > len then Longest(pages, P, k + 1, k + 1 - m, m) else Longest(pages, P, k + 1, s, len)
  {
    var m := RunLength(pages, P, k + 1);
    RunsEndingAt(pages, P, k + 1 - m, k + 1);
    RunsEndingAt(pages, P, k - RunLength(pages, P, k), k);
    forall i: nat, j: nat | i <= j <= k + 1 && IsRun(pages, P, i, j)
      ensures j <= k || j - i <= m
    {
      RunsEndingAt(pages, P, i, j);
    }
  }

  /** How many pages of size P it takes to cover size bytes. */
  function PageCount(size: nat, P: nat): nat
    requires P > 0
  {
    if size == 0 then 0 else if size <= P then 1 else PageCount(size - P, P) + 1
  }

  lemma {:induction false} CoversBytes(size: nat, P: nat, k: nat)
    requires P > 0
    ensures k < PageCount(size, P) <==> Times(k, P) < size
  {
    if size > P && k > 0 {
      CoversBytes(size - P, P, k - 1);
    } else if k > 0 {
      TimesMonotone(1, k, P);
    }
  }

  lemma {:induction false} PageCountOfTimes(n: nat, P: nat)
    requires P > 0
    ensures PageCount(Times(n, P), P) == n
  {
    if n > 0 {
      PageCountOfTimes(n - 1, P);
      if n > 1 {
        TimesMonotone(1, n - 1, P);
      }
    }
  }

  ghost function RegionOf(pages: seq<Page>, vaddr: int, P: nat, s: nat, len: nat): Region {
    if len == 0 || s >= |pages| || pages[s].Unmapped? then Region(0, 0, 0)
    else Region(vaddr + Times(s, P), pages[s].paddr, Times(len, P))
  }

  lemma {:induction false} LastOfRun(pages: seq<Page>, P: nat, i: nat, j: nat)
    requires i < j && IsRun(pages, P, i, j)
    ensures pages[j - 1].paddr == Add64(pages[i].paddr, Times(j - 1 - i, P))
  {
    if i + 1 < j {
      LastOfRun(pages, P, i, j - 1);
      assert Follows(pages, P, j - 1);
      WrapTwice(pages[i].paddr, Times(j - 2 - i, P), P);
    }
  }

  lemma WrapTwice(a: int, b: int, c: int)
    ensures Add64(Add64(a, b), c) == Add64(a, b + c)
  {
  }

  // The two searches, stated without reference to the scan.

  /** r is the leftmost longest contiguous region of the pages. */
  ghost predicate IsLargestRegion(pages: seq<Page>, vaddr: int, P: nat, r: Region) {
    exists s, len :: Longest(pages, P, |pages|, s, len) && r == RegionOf(pages, vaddr, P, s, len)
  }

  /** There is one largest region. */
  lemma LargestIsUnique(pages: seq<Page>, vaddr: int, P: nat, r: Region, other: Region)
    requires IsLargestRegion(pages, vaddr, P, r) && IsLargestRegion(pages, vaddr, P, other)
    ensures r == other
  {
    var s, len :| Longest(pages, P, |pages|, s, len) && r == RegionOf(pages, vaddr, P, s, len);
    var t, m :| Longest(pages, P, |pages|, t, m) && other == RegionOf(pages, vaddr, P, t, m);
    assert s == t && len == m;
  }

  ghost predicate HasRunOf(pages: seq<Page>, P: nat, want: nat, end: nat) {
    want <= end && IsRun(pages, P, end - want, end)
  }

  ghost predicate NoneBefore(pages: seq<Page>, P: nat, want: nat, end: nat) {
    forall other: nat :: HasRunOf(pages, P, want, other) ==> end <= other
  }

  /** r is the first place at which want contiguous pages are complete. */
  ghost predicate IsFirstFit(pages: seq<Page>, vaddr: int, P: nat, want: nat, r: Region) {
    exists end: nat :: HasRunOf(pages, P, want, end) && NoneBefore(pages, P, want, end)
      && r == RegionOf(pages, vaddr, P, end - want, want)
  }

  ghost predicate Fits(pages: seq<Page>, P: nat, want: nat) {
    exists end: nat :: HasRunOf(pages, P, want, end)
  }

  // The scan.

  /** currentRegion is the longest run that ends just before page k. */
  ghost predicate IsCurrent(pages: seq<Page>, vaddr: int, P: nat, k: nat, r: Region) {
    k <= |pages| && var m := RunLength(pages, P, k);
      r == RegionOf(pages, vaddr, P, k - m, m) && r.size == Times(m, P)
  }

  /** The update of currentRegion for one page. */
  function NextCurrent(current: Region, page: Page, currvaddr: int, P: nat): Region {
    if page.Unmapped? then Region(0, 0, 0)
    else if current.size > 0 && page.paddr == Add64(current.paddr, current.size) then
      current.(size := current.size + P)
    else Region(currvaddr, page.paddr, P)
  }

  /** Comparing with the end of the current run is comparing with its last page. */
  lemma EndOfRun(pages: seq<Page>, P: nat, k: nat)
    requires 0 < k <= |pages| && RunLength(pages, P, k) > 0
    ensures var m := RunLength(pages, P, k);
      pages[k - m].At? && pages[k - 1].At? && Add64(pages[k - m].paddr, Times(m, P)) == Add64(pages[k - 1].paddr, P)
  {
    var m := RunLength(pages, P, k);
    RunsEndingAt(pages, P, k - m, k);
    LastOfRun(pages, P, k - m, k);
    WrapTwice(pages[k - m].paddr, Times(m - 1, P), P);
  }

  lemma ComparisonIsFollows(pages: seq<Page>, vaddr: int, P: nat, k: nat, r: Region)
    requires P > 0 && k < |pages| && pages[k].At? && IsCurrent(pages, vaddr, P, k, r)
    ensures r.size > 0 && pages[k].paddr == Add64(r.paddr, r.size) <==> k > 0 && Follows(pages, P, k)
  {
    var m := RunLength(pages, P, k);
    if k > 0 {
      RunLengthPositive(pages, P, k);
    }
    if m > 0 {
      EndOfRun(pages, P, k);
      TimesMonotone(1, m, P);
    }
  }

  lemma RegionGrows(pages: seq<Page>, vaddr: int, P: nat, s: nat, len: nat)
    requires len > 0 && s < |pages| && pages[s].At?
    ensures RegionOf(pages, vaddr, P, s, len + 1) == RegionOf(pages, vaddr, P, s, len).(size := Times(len, P) + P)
    ensures RegionOf(pages, vaddr, P, s, 1) == Region(vaddr + Times(s, P), pages[s].paddr, P)
  {
    assert Times(1, P) == Times(0, P) + P;
  }

  lemma CurrentExtends(pages: seq<Page>, vaddr: int, P: nat, k: nat, r: Region)
    requires 0 < k < |pages| && Follows(pages, P, k) && IsCurrent(pages, vaddr, P, k, r)
    ensures IsCurrent(pages, vaddr, P, k + 1, r.(size := r.size + P))
  {
    var m := RunLength(pages, P, k);
    RunLengthPositive(pages, P, k);
    EndOfRun(pages, P, k);
    RegionGrows(pages, vaddr, P, k - m, m);
  }

  lemma CurrentRestarts(pages: seq<Page>, vaddr: int, P: nat, k: nat)
    requires k < |pages| && pages[k].At? && !(k > 0 && Follows(pages, P, k))
    ensures IsCurrent(pages, vaddr, P, k + 1, Region(vaddr + Times(k, P), pages[k].paddr, P))
  {
    RegionGrows(pages, vaddr, P, k, 1);
  }

  lemma CurrentStep(pages: seq<Page>, vaddr: int, P: nat, k: nat, r: Region)
    requires P > 0 && k < |pages| && IsCurrent(pages, vaddr, P, k, r)
    ensures IsCurrent(pages, vaddr, P, k + 1, NextCurrent(r, pages[k], vaddr + Times(k, P), P))
  {
    if pages[k].At? {
      ComparisonIsFollows(pages, vaddr, P, k, r);
      if k > 0 && Follows(pages, P, k) {
        CurrentExtends(pages, vaddr, P, k, r);
      } else {
        CurrentRestarts(pages, vaddr, P, k);
      }
    }
  }

  /** Start and length of the longest run among the first k pages, as the scan keeps it. */
  ghost function Best(pages: seq<Page>, P: nat, k: nat): (r: (nat, nat))
    requires k <= |pages|
  {
    if k == 0 then (0, 0)
    else
      var before, m := Best(pages, P, k - 1), RunLength(pages, P, k);
      if m > before.1 then (k - m, m) else before
  }

  lemma {:induction false} BestIsLongest(pages: seq<Page>, P: nat, k: nat)
    requires k <= |pages|
    ensures Longest(pages, P, k, Best(pages, P, k).0, Best(pages, P, k).1)
  {
    if k > 0 {
      BestIsLongest(pages, P, k - 1);
      LongestStep(pages, P, k - 1, Best(pages, P, k - 1).0, Best(pages, P, k - 1).1);
    }
  }

  /** What the scan knows after k pages. */
  ghost predicate ScanState(pages: seq<Page>, vaddr: int, P: nat, k: nat, current: Region, max: Region)
    requires k <= |pages|
  {
    && IsCurrent(pages, vaddr, P, k, current)
    && max == RegionOf(pages, vaddr, P, Best(pages, P, k).0, Best(pages, P, k).1)
    && max.size == Times(Best(pages, P, k).1, P)
  }

  lemma ScanStep(pages: seq<Page>, vaddr: int, P: nat, k: nat, current: Region, max: Region)
    requires P > 0 && k < |pages| && ScanState(pages, vaddr, P, k, current, max)
    ensures var next := NextCurrent(current, pages[k], vaddr + Times(k, P), P);
      ScanState(pages, vaddr, P, k + 1, next, if next.size > max.size then next else max)
    ensures Best(pages, P, k + 1).1 <= Best(pages, P, k).1 + 1
    ensures Best(pages, P, k + 1).1 > Best(pages, P, k).1 ==> Best(pages, P, k + 1).0 + Best(pages, P, k + 1).1 == k + 1
  {
    CurrentStep(pages, vaddr, P, k, current);
    BestIsLongest(pages, P, k);
    LongestStep(pages, P, k, Best(pages, P, k).0, Best(pages, P, k).1);
    TimesOrder(RunLength(pages, P, k + 1), Best(pages, P, k).1, P);
  }

  /** One round of the scan; a page without translation ends the current run and finds nothing new. */
  lemma ScanPage(tr: Translation, vaddr: u64, P: nat, n: nat, k: nat, current: Region, max: Region)
    requires P > 0 && k < n && ScanState(Pages(tr, vaddr, P, n), vaddr, P, k, current, max)
    ensures var pages := Pages(tr, vaddr, P, n);
      var next := NextCurrent(current, PageOf(tr, vaddr + Times(k, P)), vaddr + Times(k, P), P);
      && ScanState(pages, vaddr, P, k + 1, next, if next.size > max.size then next else max)
      && Best(pages, P, k + 1).1 <= Best(pages, P, k).1 + 1
      && (Best(pages, P, k + 1).1 > Best(pages, P, k).1 ==> Best(pages, P, k + 1).0 + Best(pages, P, k + 1).1 == k + 1)
      && (next.size <= max.size ==> Best(pages, P, k + 1).1 == Best(pages, P, k).1)
  {
    PageAt(tr, vaddr, P, n, k);
    ScanStep(Pages(tr, vaddr, P, n), vaddr, P, k, current, max);
    TimesOrder(Best(Pages(tr, vaddr, P, n), P, k + 1).1, Best(Pages(tr, vaddr, P, n), P, k).1, P);
    TimesOrder(Best(Pages(tr, vaddr, P, n), P, k).1, Best(Pages(tr, vaddr, P, n), P, k + 1).1, P);
  }

  /** What FindLargestPhysicalRegion promises; a desired size of 0 asks for the largest region. */
  ghost predicate IsSearchResult(pages: seq<Page>, vaddr: int, P: nat, desired: nat, r: Region)
    requires P > 0
  {
    if desired == 0 then IsLargestRegion(pages, vaddr, P, r)
    else if desired < P then r == Region(0, 0, 0)
    else if Fits(pages, P, PageCount(desired, P)) then IsFirstFit(pages, vaddr, P, PageCount(desired, P), r)
    else IsLargestRegion(pages, vaddr, P, r)
  }

  /** The current region grows by a page that follows it, and starts anew at any other mapped page. */
  method ExtendRegion(current: Region, currpaddr: u64, currvaddr: int, pageSize: nat) returns (next: Region)
    ensures next == NextCurrent(current, At(currpaddr), currvaddr, pageSize)
  {
    next := current;
    if next.size > 0 && currpaddr == Add64(next.paddr, next.size) {
      next := next.(size := next.size + pageSize);
    } else {
      next := Region(currvaddr, currpaddr, pageSize);
    }
  }

  method FindLargestPhysicalRegion(tr: Translation, vaddr: u64, vregionSizeBytes: u64, pageSize: u64, desired: u64)
      returns (maxRegion: Region)
    requires pageSize > 0 && vaddr + vregionSizeBytes <= U64_LIMIT && vregionSizeBytes + pageSize <= U64_LIMIT
    ensures IsSearchResult(Pages(tr, vaddr, pageSize, PageCount(vregionSizeBytes, pageSize)), vaddr, pageSize, desired, maxRegion)
  {
    var desiredSizeBytes := if desired == 0 then U64_MAX else desired;
    if desiredSizeBytes < pageSize {
      return Region(0, 0, 0);
    }
    maxRegion := Region(0, 0, 0);
    var currentRegion := Region(0, 0, 0);
    ghost var n, want := PageCount(vregionSizeBytes, pageSize), PageCount(desiredSizeBytes, pageSize);
    ghost var pages := Pages(tr, vaddr, pageSize, n);
    ghost var k: nat := 0;
    var offset := 0;
    OffsetStep(vregionSizeBytes, pageSize, 0);
    while offset < vregionSizeBytes
      invariant k <= n && offset == Times(k, pageSize)
      invariant k < n <==> offset < vregionSizeBytes
      invariant ScanState(pages, vaddr, pageSize, k, currentRegion, maxRegion)
      invariant Best(pages, pageSize, k).1 < want
      decreases n - k
    {
      var currvaddr := vaddr + offset;
      ScanPage(tr, vaddr, pageSize, n, k, currentRegion, maxRegion);
      OffsetStep(vregionSizeBytes, pageSize, k);
      offset := offset + pageSize;
      k := k + 1;
      if currvaddr !in tr || tr[currvaddr] == U64_MAX {
        currentRegion := Region(0, 0, 0);
        continue;
      }
      currentRegion := ExtendRegion(currentRegion, tr[currvaddr], currvaddr, pageSize);
      if currentRegion.size > maxRegion.size {
        maxRegion := currentRegion;
      }
      CoversBytes(desiredSizeBytes, pageSize, Best(pages, pageSize, k).1);
      if desiredSizeBytes > 0 && maxRegion.size >= desiredSizeBytes {
        ReachedTarget(pages, vaddr, vregionSizeBytes, pageSize, desired, k, maxRegion);
        return;
      }
    }
    ScanFinished(pages, vaddr, pageSize, desired, maxRegion);
  }

  lemma OffsetStep(size: nat, P: nat, k: nat)
    requires P > 0
    ensures k < PageCount(size, P) <==> Times(k, P) < size
    ensures k + 1 < PageCount(size, P) <==> Times(k, P) + P < size
  {
    CoversBytes(size, P, k);
    CoversBytes(size, P, k + 1);
  }

  /** The scan stops when the longest run so far, which ends at page k, has the desired length. */
  lemma ReachedTarget(pages: seq<Page>, vaddr: int, size: nat, P: nat, desired: nat, k: nat, r: Region)
    requires P > 0 && |pages| == PageCount(size, P) && size + P <= U64_LIMIT && (desired == 0 || P <= desired)
    requires 0 < k <= |pages|
    requires var best := Best(pages, P, k);
      best.1 == PageCount(if desired == 0 then U64_MAX else desired, P) && best.0 + best.1 == k
      && r == RegionOf(pages, vaddr, P, best.0, best.1)
    ensures IsSearchResult(pages, vaddr, P, desired, r)
  {
    var best := Best(pages, P, k);
    BestIsLongest(pages, P, k);
    if desired == 0 {
      ReachedEverything(size, P, |pages|, best.1, k);
    } else {
      FitReached(pages, vaddr, P, k, best.0, best.1, r);
    }
  }

  lemma FitReached(pages: seq<Page>, vaddr: int, P: nat, k: nat, s: nat, len: nat, r: Region)
    requires k <= |pages| && s + len == k && len > 0 && Longest(pages, P, k, s, len) && r == RegionOf(pages, vaddr, P, s, len)
    ensures Fits(pages, P, len) && IsFirstFit(pages, vaddr, P, len, r)
  {
    assert HasRunOf(pages, P, len, k);
    assert NoneBefore(pages, P, len, k) by {
      forall other: nat | HasRunOf(pages, P, len, other)
        ensures k <= other
      {
        NoEarlierFit(pages, P, k, s, len, other);
      }
    }
    assert s == k - len;
  }

  lemma NoEarlierFit(pages: seq<Page>, P: nat, k: nat, s: nat, len: nat, other: nat)
    requires s + len == k && len > 0 && Longest(pages, P, k, s, len) && HasRunOf(pages, P, len, other)
    ensures k <= other
  {
    var i := other - len;
    assert IsRun(pages, P, i, other);
  }

  lemma ScanFinished(pages: seq<Page>, vaddr: int, P: nat, desired: nat, r: Region)
    requires P > 0 && (desired == 0 || P <= desired)
    requires var best := Best(pages, P, |pages|);
      best.1 < PageCount(if desired == 0 then U64_MAX else desired, P) && r == RegionOf(pages, vaddr, P, best.0, best.1)
    ensures IsSearchResult(pages, vaddr, P, desired, r)
  {
    var best := Best(pages, P, |pages|);
    BestIsLongest(pages, P, |pages|);
    if desired != 0 {
      NeverReached(pages, P, PageCount(desired, P), best.0, best.1);
    }
  }

  lemma NeverReached(pages: seq<Page>, P: nat, want: nat, s: nat, len: nat)
    requires Longest(pages, P, |pages|, s, len) && len < want
    ensures !Fits(pages, P, want)
  {
    forall end: nat ensures !HasRunOf(pages, P, want, end) {
    }
  }

  lemma ReachedEverything(size: nat, P: nat, n: nat, len: nat, k: nat)
    requires P > 0 && n == PageCount(size, P) && size + P <= U64_LIMIT
    requires len == PageCount(U64_MAX, P) && len <= k <= n
    ensures k == n
  {
    CoversBytes(U64_MAX, P, len);
    TimesMonotone(len, k, P);
    CoversBytes(size, P, k);
  }

  // The second checker.

  /** (size + P - 1) & ~(P - 1) with P = 2^m. */
  function RoundUp(size: nat, P: nat): nat
    requires P > 0
  {
    And(size + P - 1, 0 - P)
  }

  lemma RoundUpCoversPages(size: nat, m: nat)
    ensures RoundUp(size, Pow2(m)) == Times(PageCount(size, Pow2(m)), Pow2(m))
    ensures size <= RoundUp(size, Pow2(m)) < size + Pow2(m)
  {
    var x := size + Pow2(m) - 1;
    SplitAt(x, m);
    BlocksAreTimes(ShiftRight(x, m), m);
    AndWithComplement(x, Pow2(m) - 1);
    PageCountIs(size, Pow2(m), ShiftRight(x, m));
  }

  lemma WholePages(size: nat, m: nat)
    requires size % Pow2(m) == 0
    ensures size == Times(PageCount(size, Pow2(m)), Pow2(m))
  {
    ShiftMaskDivMod(size, m);
    SplitAt(size, m);
    BlocksAreTimes(ShiftRight(size, m), m);
    PageCountIs(size, Pow2(m), ShiftRight(size, m));
  }

  lemma BlocksAreTimes(q: nat, m: nat)
    ensures ShiftLeft(q, m) == Times(q, Pow2(m))
  {
    ShiftLeftMultiplies(q, m);
    TimesIsProduct(q, Pow2(m));
  }

  lemma PageCountIs(size: nat, P: nat, q: nat)
    requires P > 0 && size <= Times(q, P) < size + P
    ensures PageCount(size, P) == q
  {
    CoversBytes(size, P, q);
    if q > 0 {
      CoversBytes(size, P, q - 1);
    }
  }

  lemma PagesOfTimes(n: nat, P: nat)
    requires P > 0
    ensures Times(n, P) / P == n
  {
    TimesIsProduct(n, P);
    DivModUnique(Times(n, P), P, n, 0);
  }

  /** No page translates to the top of the address space or to one page below it. */
  ghost predicate NoTopPages(tr: Translation, vaddr: int, P: nat, n: nat) {
    forall k: nat :: k < n && vaddr + Times(k, P) in tr ==> NotTop(tr[vaddr + Times(k, P)], P)
  }

  predicate NotTop(p: u64, P: nat) {
    p != U64_MAX && p + P != U64_MAX
  }

  /** Page-aligned translations are never there. */
  lemma AlignedIsNotTop(p: u64, m: nat)
    requires 1 <= m && p % Pow2(m) == 0
    ensures NotTop(p, Pow2(m))
  {
    ShiftMaskDivMod(p, m);
    SplitAt(p, m);
    assert ShiftLeft(ShiftRight(p, m), m) == 2 * ShiftLeft(ShiftRight(p, m), m - 1);
    assert Pow2(m) == 2 * Pow2(m - 1);
  }

  lemma RunPrefix(pages: seq<Page>, P: nat, j: nat)
    requires 0 < j < |pages|
    ensures IsRun(pages, P, 0, j + 1) <==> IsRun(pages, P, 0, j) && Follows(pages, P, j)
  {
  }

  /** The test of one loop iteration, with UINT64_MAX standing for a failed translation. */
  lemma TwoSlotTest(prev: Page, here: Page, before: u64, now: u64, P: nat)
    requires prev == At(before) && NotTop(before, P) && P < U64_LIMIT
    requires if here.At? then now == here.paddr && NotTop(now, P) else now == U64_MAX
    ensures Add64(before, P) == now <==> here.At? && here.paddr == Add64(prev.paddr, P)
    ensures Add64(before, P) == now ==> here == At(now)
  {
  }

  /**
   verifyHugePageIsContiguous, with the two-slot buffer paddr; initVMM says whether the
   memory reader is available, and the page size is the power of two 2^m.
   */
  method VerifyHugePageIsContiguous(initVMM: bool, tr: Translation, vaddrBegin: u64, size: u64, m: nat)
      returns (isContiguous: bool)
    requires vaddrBegin + size <= U64_LIMIT && size + Pow2(m) <= U64_LIMIT
    requires NoTopPages(tr, vaddrBegin, Pow2(m), PageCount(size, Pow2(m)))
    ensures var P := Pow2(m); var n := PageCount(size, P);
      isContiguous <==> initVMM && (if n == 0 then vaddrBegin in tr else IsRun(Pages(tr, vaddrBegin, P, n), P, 0, n))
  {
    if !initVMM {
      return false;
    }
    var P := Pow2(m);
    ghost var n := PageCount(size, P);
    var sizeBytes: nat := size;
    RoundUpCoversPages(size, m);
    if sizeBytes % P != 0 {
      sizeBytes := RoundUp(sizeBytes, P);
    } else {
      WholePages(size, m);
    }
    PagesOfTimes(n, P);
    sizeBytes := sizeBytes / P;
    isContiguous := CheckPages(tr, vaddrBegin, sizeBytes, size, P);
  }

  method CheckPages(tr: Translation, vaddrBegin: u64, n: nat, ghost size: nat, P: nat) returns (isContiguous: bool)
    requires P > 0 && n == PageCount(size, P) && vaddrBegin + size <= U64_LIMIT && size + P <= U64_LIMIT && NoTopPages(tr, vaddrBegin, P, n)
    ensures isContiguous <==> if n == 0 then vaddrBegin in tr else IsRun(Pages(tr, vaddrBegin, P, n), P, 0, n)
  {
    var paddr := new u64[2](_ => 0);
    var opsuccess := vaddrBegin in tr;
    if opsuccess {
      paddr[0] := tr[vaddrBegin];
    }
    isContiguous := opsuccess;
    if n == 0 {
      return;
    }
    ghost var pages := Pages(tr, vaddrBegin, P, n);
    FirstPage(tr, vaddrBegin, P, n);
    var i := 1;
    while i < n
      invariant 1 <= i <= n
      invariant isContiguous <==> IsRun(pages, P, 0, i)
      invariant isContiguous ==> pages[i - 1] == At(paddr[(i - 1) % 2]) && NotTop(paddr[(i - 1) % 2], P)
    {
      var v := vaddrBegin + P * i;
      NextPage(tr, vaddrBegin, P, n, size, i);
      opsuccess := v in tr;
      paddr[i % 2] := if opsuccess then tr[v] else U64_MAX;
      var tmp := Add64(paddr[1 - i % 2], P) == paddr[i % 2];
      if isContiguous {
        TwoSlotTest(pages[i - 1], pages[i], paddr[1 - i % 2], paddr[i % 2], P);
      }
      RunPrefix(pages, P, i);
      isContiguous := isContiguous && tmp;
      if !opsuccess || !isContiguous {
        NoLongerRun(pages, P, i + 1, n);
        return;
      }
      i := i + 1;
    }
  }

  lemma FirstPage(tr: Translation, vaddr: u64, P: nat, n: nat)
    requires n > 0 && NoTopPages(tr, vaddr, P, n)
    ensures var pages := Pages(tr, vaddr, P, n);
      pages[0] == (if vaddr in tr then At(tr[vaddr]) else Unmapped) && (IsRun(pages, P, 0, 1) <==> vaddr in tr)
    ensures vaddr in tr ==> NotTop(tr[vaddr], P)
  {
    PageAt(tr, vaddr, P, n, 0);
    assert Times(0, P) == 0;
    assert vaddr + Times(0, P) == vaddr;
  }

  lemma NextPage(tr: Translation, vaddr: u64, P: nat, n: nat, size: nat, i: nat)
    requires P > 0 && i < n == PageCount(size, P) && NoTopPages(tr, vaddr, P, n)
    requires vaddr + size <= U64_LIMIT && size + P <= U64_LIMIT
    ensures var v := vaddr + P * i;
      v < U64_LIMIT && Pages(tr, vaddr, P, n)[i] == (if v in tr then At(tr[v]) else Unmapped)
      && (v in tr ==> NotTop(tr[v], P))
  {
    TimesIsProduct(i, P);
    PageAt(tr, vaddr, P, n, i);
    CoversBytes(size, P, i);
  }

  lemma NoLongerRun(pages: seq<Page>, P: nat, j: nat, n: nat)
    requires 0 < j <= n <= |pages|
    ensures IsRun(pages, P, 0, n) ==> IsRun(pages, P, 0, j)
  {
  }

  /** The scan finds a region of all n pages exactly when they form one run, as the second checker reports. */
  lemma CheckersAgree(pages: seq<Page>, vaddr: int, P: nat, r: Region)
    requires P > 0 && pages != [] && IsLargestRegion(pages, vaddr, P, r)
    ensures r.size == Times(|pages|, P) <==> IsRun(pages, P, 0, |pages|)
    ensures IsRun(pages, P, 0, |pages|) ==> r == Region(vaddr, pages[0].paddr, Times(|pages|, P))
  {
    var s, len :| Longest(pages, P, |pages|, s, len) && r == RegionOf(pages, vaddr, P, s, len);
    TimesOrder(|pages|, len, P);
    TimesOrder(|pages|, 0, P);
    if IsRun(pages, P, 0, |pages|) {
      assert len == |pages| && s == 0;
    }
  }
}
