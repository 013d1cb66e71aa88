/** Building the page bitmap from the firmware's memory map. */
module PmmInit {
  import opened Base
  import opened PageBits
  import opened Pmm

  const FREE_REGION := 1
  const MAX_PHYS := 0x1000_0000_0000 - 8 * PAGE_SIZE   // page counts fit in 32 bits below this

  /** An e820 entry; base and length are 64-bit. */
  datatype Region = Region(base: nat, length: nat, kind: nat) {
    function End(): nat { (base + length) % TWO64 }
  }

  function AlignUp(x: nat): (a: nat)
    ensures x <= a < x + PAGE_SIZE && a % PAGE_SIZE == 0
  {
    (x + PAGE_SIZE - 1) / PAGE_SIZE * PAGE_SIZE
  }

  /** The page lies wholly inside a free region, and at or above both 1 MiB and the end of the kernel. */
  predicate Covers(r: Region, kernelEnd: nat, page: nat) {
    && r.kind == FREE_REGION
    && r.base <= page * PAGE_SIZE && (page + 1) * PAGE_SIZE <= r.End()
    && MIN_BASE <= page * PAGE_SIZE && kernelEnd <= page * PAGE_SIZE
  }

  ghost predicate AllUsed(bits: seq<bool>) {
    forall page: nat :: page < |bits| ==> bits[page]
  }

  ghost predicate Fit(regions: seq<Region>, pages: nat) {
    forall i :: 0 <= i < |regions| ==> regions[i].End() <= pages * PAGE_SIZE
  }

  predicate Covered(regions: seq<Region>, kernelEnd: nat, page: nat) {
    exists r <- regions :: Covers(r, kernelEnd, page)
  }

  ghost predicate PageDisjoint(regions: seq<Region>, kernelEnd: nat) {
    forall i, j, page: nat :: 0 <= i < j < |regions| && Covers(regions[i], kernelEnd, page) ==> !Covers(regions[j], kernelEnd, page)
  }

  /** The physical memory the map describes, in pages. */
  function PagesAmount(regions: seq<Region>): nat {
    AlignUp(MaxEnd(regions)) / PAGE_SIZE
  }

  function MaxEnd(regions: seq<Region>): (m: nat)
    ensures forall r <- regions :: r.End() <= m
  {
    if regions == [] then 0
    else
      var before, last := MaxEnd(regions[..|regions| - 1]), regions[|regions| - 1].End();
      if last > before then last else before
  }

  /** Bit `page` after the map has been applied. */
  ghost predicate Describes(bits: seq<bool>, regions: seq<Region>, kernelEnd: nat) {
    forall page: nat :: page < |bits| ==> (bits[page] <==> !Covered(regions, kernelEnd, page))
  }

  /** The pages [from, to) of one region, as the loop bounds compute them. */
  function StartPage(r: Region, kernelEnd: nat): nat {
    var minFree := if AlignUp(kernelEnd) < MIN_BASE then MIN_BASE else AlignUp(kernelEnd);
    AlignUp(if r.base < minFree then minFree else r.base) / PAGE_SIZE
  }

  lemma BoundsAreCoverage(r: Region, kernelEnd: nat, page: nat)
    requires r.kind == FREE_REGION
    ensures Covers(r, kernelEnd, page) <==> StartPage(r, kernelEnd) <= page < r.End() / PAGE_SIZE
  {
  }

  /** The bitmap after region `r`: the pages it covers are cleared, the others keep their bit. */
  ghost predicate RegionApplied(before: seq<bool>, after: seq<bool>, r: Region, kernelEnd: nat) {
    && |after| == |before|
    && forall page: nat :: page < |before| ==> (after[page] <==> before[page] && !Covers(r, kernelEnd, page))
  }

  lemma RegionExtendsDescription(before: seq<bool>, after: seq<bool>, regions: seq<Region>, i: nat, kernelEnd: nat)
    requires i < |regions| && Describes(before, regions[..i], kernelEnd)
    requires RegionApplied(before, after, regions[i], kernelEnd)
    ensures Describes(after, regions[..i + 1], kernelEnd)
  {
    assert regions[..i + 1] == regions[..i] + [regions[i]];
  }

  /** How many pages a region covers. */
  function CoverCount(r: Region, kernelEnd: nat): nat {
    if r.kind == FREE_REGION && StartPage(r, kernelEnd) < r.End() / PAGE_SIZE
    then r.End() / PAGE_SIZE - StartPage(r, kernelEnd) else 0
  }

  /** The pages of all regions, those of an overlap once for each region. */
  function Total(regions: seq<Region>, kernelEnd: nat): nat {
    if regions == [] then 0
    else Total(regions[..|regions| - 1], kernelEnd) + CoverCount(regions[|regions| - 1], kernelEnd)
  }

  /** The counter is that total, in 32 bits; it is the number of clear bits exactly in a page-disjoint map. */
  ghost predicate Counts(freePages: nat, bits: seq<bool>, regions: seq<Region>, kernelEnd: nat) {
    && freePages == Wrap32(Total(regions, kernelEnd))
    && ClearCount(bits) <= Total(regions, kernelEnd)
    && (ClearCount(bits) == Total(regions, kernelEnd) <==> PageDisjoint(regions, kernelEnd))
  }

  /** The pages a region covers are still set when its turn comes exactly if no earlier region covers one of them. */
  lemma StillUsedIff(before: seq<bool>, regions: seq<Region>, i: nat, kernelEnd: nat, start: nat, n: nat)
    requires i < |regions| && Describes(before, regions[..i], kernelEnd) && start + n <= |before|
    requires CoversExactly(regions[i], kernelEnd, start, n)
    ensures UsedRun(before, start, n) <==>
      forall page: nat :: Covers(regions[i], kernelEnd, page) ==> !Covered(regions[..i], kernelEnd, page)
  {
    hide Covers, Covered;
  }

  ghost predicate CoversExactly(r: Region, kernelEnd: nat, start: nat, n: nat) {
    forall page: nat :: Covers(r, kernelEnd, page) <==> start <= page < start + n
  }

  lemma DisjointMore(regions: seq<Region>, i: nat, kernelEnd: nat)
    requires i < |regions|
    ensures PageDisjoint(regions[..i + 1], kernelEnd) <==>
      && PageDisjoint(regions[..i], kernelEnd)
      && forall page: nat :: Covers(regions[i], kernelEnd, page) ==> !Covered(regions[..i], kernelEnd, page)
  {
    hide Covers;
    var before, after := regions[..i], regions[..i + 1];
    assert forall k :: 0 <= k < i ==> after[k] == before[k] == regions[k];
    assert after[i] == regions[i];
    if PageDisjoint(after, kernelEnd) {
      forall page: nat | Covers(regions[i], kernelEnd, page) ensures !Covered(before, kernelEnd, page) {
        forall r <- before ensures !Covers(r, kernelEnd, page) {
          var k :| 0 <= k < i && before[k] == r;
          assert after[k] == r;
        }
      }
      forall j, k, page: nat | 0 <= j < k < |before| && Covers(before[j], kernelEnd, page)
        ensures !Covers(before[k], kernelEnd, page)
      {
        assert Covers(after[j], kernelEnd, page) && !Covers(after[k], kernelEnd, page);
      }
    }
    if PageDisjoint(before, kernelEnd)
       && forall page: nat :: Covers(regions[i], kernelEnd, page) ==> !Covered(before, kernelEnd, page)
    {
      forall j, k, page: nat | 0 <= j < k < |after| && Covers(after[j], kernelEnd, page)
        ensures !Covers(after[k], kernelEnd, page)
      {
        assert before[j] in before;
        if k < i { assert Covers(before[j], kernelEnd, page) && !Covers(before[k], kernelEnd, page); }
      }
    }
  }

  lemma RegionDone(
    count: nat, before: seq<bool>, after: seq<bool>, regions: seq<Region>, i: nat, kernelEnd: nat, start: nat, n: nat)
    requires i < |regions| && Describes(before, regions[..i], kernelEnd)
    requires RegionApplied(before, after, regions[i], kernelEnd)
    requires start + n <= |before| && after == SetRun(before, start, n, false)
    requires CoversExactly(regions[i], kernelEnd, start, n) && n == CoverCount(regions[i], kernelEnd)
    ensures Describes(after, regions[..i + 1], kernelEnd)
    ensures Counts(count, before, regions[..i], kernelEnd) ==>
      Counts(Wrap32(count + n), after, regions[..i + 1], kernelEnd)
  {
    hide Describes, RegionApplied, SetRun, CoversExactly, CoverCount, PageDisjoint, Wrap32, ClearCount, UsedRun;
    RegionExtendsDescription(before, after, regions, i, kernelEnd);
    ClearCountSetRun(before, start, n, false);
    UsedInIsFull(before, start, n);
    StillUsedIff(before, regions, i, kernelEnd, start, n);
    DisjointMore(regions, i, kernelEnd);
    assert regions[..i + 1][..i] == regions[..i];
    Wrap32Add(Total(regions[..i], kernelEnd), n);
  }

  /** The bounds of one region are its pages; no page when they are empty. */
  lemma PagesOfRegion(r: Region, kernelEnd: nat)
    ensures CoverCount(r, kernelEnd) == 0 ==> CoversExactly(r, kernelEnd, 0, 0)
    ensures r.kind == FREE_REGION && StartPage(r, kernelEnd) < r.End() / PAGE_SIZE ==>
      CoverCount(r, kernelEnd) == r.End() / PAGE_SIZE - StartPage(r, kernelEnd)
      && CoversExactly(r, kernelEnd, StartPage(r, kernelEnd), CoverCount(r, kernelEnd))
    ensures r.kind != FREE_REGION || r.End() / PAGE_SIZE <= StartPage(r, kernelEnd) ==> CoverCount(r, kernelEnd) == 0
  {
    hide StartPage, Covers;
    if r.kind == FREE_REGION {
      forall page: nat ensures Covers(r, kernelEnd, page) <==> StartPage(r, kernelEnd) <= page < r.End() / PAGE_SIZE {
        BoundsAreCoverage(r, kernelEnd, page);
      }
    } else {
      OtherKind(r, kernelEnd);
    }
  }

  lemma OtherKind(r: Region, kernelEnd: nat)
    requires r.kind != FREE_REGION
    ensures forall page: nat :: !Covers(r, kernelEnd, page)
  {
  }

  /** Clearing the pages it covers applies a region. */
  lemma RunApplied(before: seq<bool>, r: Region, kernelEnd: nat)
    ensures forall start: nat, n: nat :: CoversExactly(r, kernelEnd, start, n) && start + n <= |before| ==>
      RegionApplied(before, SetRun(before, start, n, false), r, kernelEnd)
  {
    hide Covers, SetRun;
  }

  /** The innermost loop: clears pages [from, to) and counts them. */
  method ClearPages(bitmap: array<bv8>, from: nat, to: nat, count: nat) returns (freePages: nat)
    requires from < to <= 8 * bitmap.Length
    modifies bitmap
    ensures Bits(bitmap[..]) == SetRun(old(Bits(bitmap[..])), from, to - from, false)
    ensures freePages == Wrap32(count + (to - from))
  {
    hide Bits, SetRun, WithBit, Wrap32;
    ghost var before := Bits(bitmap[..]);
    freePages := Wrap32(count);
    EmptyRun(before, from, false);
    for page := from to to
      invariant Bits(bitmap[..]) == SetRun(before, from, page - from, false)
      invariant freePages == Wrap32(count + (page - from))
    {
      ghost var bytes := bitmap[..];
      BitsOfUpdate(bytes, page / 8, page % 8, false);
      SetRunExtend(before, from, page - from, false);
      bitmap[page / 8] := WithBit(bitmap[page / 8], page % 8, false);
      assert bitmap[..] == bytes[page / 8 := WithBit(bytes[page / 8], page % 8, false)];
      Wrap32Succ(count + (page - from));
      freePages := Wrap32(freePages + 1);
    }
  }

  /** pmm_free_pages_from_e820, one region. */
  method FreeRegion(
    bitmap: array<bv8>, r: Region, kernelEnd: nat, count: nat) returns (freePages: nat, ghost start: nat, ghost n: nat)
    requires r.End() <= 8 * bitmap.Length * PAGE_SIZE
    modifies bitmap
    ensures RegionApplied(old(Bits(bitmap[..])), Bits(bitmap[..]), r, kernelEnd)
    ensures start + n <= 8 * bitmap.Length && Bits(bitmap[..]) == SetRun(old(Bits(bitmap[..])), start, n, false)
    ensures CoversExactly(r, kernelEnd, start, n) && n == CoverCount(r, kernelEnd)
    ensures freePages == Wrap32(count + n)
  {
    hide Bits, SetRun, Wrap32, RegionApplied, CoversExactly, CoverCount;
    ghost var before := Bits(bitmap[..]);
    EmptyRun(before, 0, false);
    freePages, start, n := Wrap32(count), 0, 0;
    PagesOfRegion(r, kernelEnd);
    RunApplied(before, r, kernelEnd);
    var minFree := AlignUp(kernelEnd);
    if minFree < MIN_BASE {
      minFree := MIN_BASE;
    }
    if r.kind == FREE_REGION {
      var regionStart, regionEnd := r.base, (r.base + r.length) % TWO64;
      if regionEnd <= minFree {
        return;
      }
      if regionStart < minFree {
        regionStart := minFree;
      }
      var startPage := AlignUp(regionStart) / PAGE_SIZE;
      var endPage := regionEnd / PAGE_SIZE;
      if endPage <= startPage {
        return;
      }
      freePages := ClearPages(bitmap, startPage, endPage, count);
      start, n := startPage, endPage - startPage;
    }
  }

  /** pmm_free_pages_from_e820 */
  method FreePagesFromE820(bitmap: array<bv8>, regions: seq<Region>, kernelEnd: nat) returns (freePages: nat)
    requires Fit(regions, 8 * bitmap.Length)
    requires AllUsed(Bits(bitmap[..]))
    modifies bitmap
    ensures Describes(Bits(bitmap[..]), regions, kernelEnd)
    ensures Counts(freePages, Bits(bitmap[..]), regions, kernelEnd)
  {
    freePages := 0;
    NothingDescribed(Bits(bitmap[..]), regions, kernelEnd);
    hide *;
    for i := 0 to |regions|
      invariant Describes(Bits(bitmap[..]), regions[..i], kernelEnd)
      invariant Counts(freePages, Bits(bitmap[..]), regions[..i], kernelEnd)
    {
      ghost var before := Bits(bitmap[..]);
      ghost var start, n;
      ghost var count := freePages;
      freePages, start, n := FreeRegion(bitmap, regions[i], kernelEnd, freePages);
      RegionDone(count, before, Bits(bitmap[..]), regions, i, kernelEnd, start, n);
    }
    assert regions[..|regions|] == regions;
  }

  lemma NothingDescribed(bits: seq<bool>, regions: seq<Region>, kernelEnd: nat)
    requires AllUsed(bits)
    ensures Describes(bits, regions[..0], kernelEnd)
    ensures Counts(0, bits, regions[..0], kernelEnd)
  {
    ClearCountPositive(bits);
  }

  /** kpmm_init's scan for the end of physical memory. */
  method HighestEnd(regions: seq<Region>) returns (maxPhys: nat)
    ensures maxPhys == MaxEnd(regions)
  {
    maxPhys := 0;
    for i := 0 to |regions|
      invariant maxPhys == MaxEnd(regions[..i])
    {
      assert regions[..i + 1][..i] == regions[..i];
      if (regions[i].base + regions[i].length) % TWO64 > maxPhys {
        maxPhys := (regions[i].base + regions[i].length) % TWO64;
      }
    }
    assert regions[..|regions|] == regions;
  }

  /** kpmm_init's fill of the fresh bitmap. */
  method AllSetBitmap(bytes: nat) returns (bitmap: array<bv8>)
    ensures fresh(bitmap) && bitmap.Length == bytes && AllUsed(Bits(bitmap[..]))
  {
    bitmap := new bv8[bytes];
    for i := 0 to bytes
      invariant forall k :: 0 <= k < i ==> bitmap[k] == 0xFF
    {
      bitmap[i] := 0xFF;
    }
    AllOnes(bitmap[..]);
  }

  /** kpmm_init. `earlyRoom` is what the early allocator still has; it answers NULL beyond that, and for 0 bytes. */
  method Init(regions: seq<Region>, kernelEnd: nat, earlyRoom: nat) returns (r: Result<PageAllocator>)
    requires earlyRoom < TWO32 - 8
    requires forall e <- regions :: e.base + e.length <= MAX_PHYS
    ensures r.Halted? <==> MaxEnd(regions) == 0 || EarlyBytes(regions) > earlyRoom
    ensures r.Returned? ==> Initialised(r.value, regions, kernelEnd)
  {
    hide Bits, Describes, Counts, Fit, AllUsed, Initialised, MaxEnd, AlignUp;
    var maxPhys := HighestEnd(regions);
    var bytes := (AlignUp(maxPhys) / PAGE_SIZE + 7) / 8;
    var rounded := (bytes + 7) / 8 * 8;
    BitmapFits(regions);
    if rounded > earlyRoom || rounded == 0 {
      return Halted;
    }
    var bitmap := AllSetBitmap(bytes);
    var freePages := FreePagesFromE820(bitmap, regions, kernelEnd);
    var pmm := new PageAllocator(bitmap, freePages);
    InitialisedBy(pmm, regions, kernelEnd);
    return Returned(pmm);
  }

  /** The bitmap's size, as the early allocator rounds it. */
  function EarlyBytes(regions: seq<Region>): nat {
    ((PagesAmount(regions) + 7) / 8 + 7) / 8 * 8
  }

  lemma BitmapFits(regions: seq<Region>)
    ensures Fit(regions, 8 * ((PagesAmount(regions) + 7) / 8))
    ensures MaxEnd(regions) == 0 <==> EarlyBytes(regions) == 0
  {
    forall i | 0 <= i < |regions| ensures regions[i].End() <= 8 * ((PagesAmount(regions) + 7) / 8) * PAGE_SIZE {
      assert regions[i] in regions;
    }
  }

  lemma InitialisedBy(pmm: PageAllocator, regions: seq<Region>, kernelEnd: nat)
    requires pmm.bitmap.Length == (PagesAmount(regions) + 7) / 8
    requires Describes(pmm.Used(), regions, kernelEnd) && Counts(pmm.freePages, pmm.Used(), regions, kernelEnd)
    ensures Initialised(pmm, regions, kernelEnd)
  {
    hide Describes, PageDisjoint, ClearCount, Total;
  }

  lemma {:induction false} TotalFits(regions: seq<Region>, kernelEnd: nat)
    requires forall r <- regions :: r.End() <= TWO32
    ensures Total(regions, kernelEnd) <= |regions| * (TWO32 / PAGE_SIZE)
  {
    if regions != [] {
      var last := |regions| - 1;
      assert forall r <- regions[..last] :: r in regions;
      TotalFits(regions[..last], kernelEnd);
      assert regions[last] in regions && CoverCount(regions[last], kernelEnd) <= TWO32 / PAGE_SIZE;
    }
  }

  /**
   * Up to 4 GiB, and with fewer than 4096 regions (more could carry the 32-bit counter all the way round), the allocator
   * starts with a counter in step exactly when no page lies in two regions.
   */
  lemma StartsInStepIff(pmm: PageAllocator, regions: seq<Region>, kernelEnd: nat)
    requires Initialised(pmm, regions, kernelEnd) && MaxEnd(regions) <= TWO32 && |regions| < 4096
    ensures pmm.Valid() <==> PageDisjoint(regions, kernelEnd)
  {
    hide Describes, PageDisjoint, ClearCount, Total, Bits;
    TotalFits(regions, kernelEnd);
  }

  /** Example: a page described twice is counted twice. */
  lemma OverlapCountsTwice(pmm: PageAllocator, r: Region, kernelEnd: nat)
    requires Initialised(pmm, [r, r], kernelEnd) && r.End() <= TWO32 && CoverCount(r, kernelEnd) > 0
    ensures !pmm.Valid()
  {
    var page := StartPage(r, kernelEnd);
    BoundsAreCoverage(r, kernelEnd, page);
    assert Covers([r, r][0], kernelEnd, page) && Covers([r, r][1], kernelEnd, page);
    var one, two := [r], [r, r];
    assert one[..0] == [] && two[..1] == one;
    assert MaxEnd(one) <= TWO32;
    StartsInStepIff(pmm, [r, r], kernelEnd);
  }

  lemma AllOnes(bytes: seq<bv8>)
    requires forall k :: 0 <= k < |bytes| ==> bytes[k] == 0xFF
    ensures AllUsed(Bits(bytes))
  {
    forall page: nat | page < 8 * |bytes| ensures Bits(bytes)[page] {
      BitAt(bytes, page / 8, page % 8);
      PowersAreDistinctBits(page % 8, page % 8);
    }
  }

  /** What kpmm_init leaves behind. */
  ghost predicate Initialised(pmm: PageAllocator, regions: seq<Region>, kernelEnd: nat)
    reads pmm, pmm.bitmap
  {
    && PagesAmount(regions) <= |pmm.Used()| < PagesAmount(regions) + 8
    && Describes(pmm.Used(), regions, kernelEnd)
    && Counts(pmm.freePages, pmm.Used(), regions, kernelEnd)
    && (PageDisjoint(regions, kernelEnd) && MaxEnd(regions) <= TWO32 ==> pmm.Valid())
  }

  /** Page 0, the pages below 1 MiB, the kernel's pages and the bits past the last page are used from the start. */
  lemma NeverFreeAtBoot(bits: seq<bool>, regions: seq<Region>, kernelEnd: nat, page: nat)
    requires Describes(bits, regions, kernelEnd) && page < |bits|
    requires page * PAGE_SIZE < MIN_BASE || page * PAGE_SIZE < kernelEnd || page >= PagesAmount(regions)
    ensures bits[page]
  {
    forall r <- regions ensures !Covers(r, kernelEnd, page) {
      assert r.End() <= MaxEnd(regions);
    }
  }
}
