/** The kernel heap's block list and page backing, as values. */
module HeapLayout {
  import opened Base
  import opened PageBits
  import opened Paging
  import opened Vmm

  const HEAP_BASE := 0xD000_0000
  const HEAP_LIMIT := HEAP_BASE + 409600
  const SLOT_END := 0xD040_0000        // end of the directory slot the heap lies in
  const HEADER := 12                   // sizeof(kmalloc_header_t)

  datatype Header = Header(free: bool, size: nat, next: nat)

  /** End of block `i`: the start of the next one, or the break. */
  function EndOf(blocks: seq<nat>, brk: nat, i: nat): nat
    requires i < |blocks|
  {
    if i + 1 < |blocks| then blocks[i + 1] else brk
  }

  /**
   * The headers, oldest first, tile [HEAP_BASE, brk) with whole pages, and are chained from the newest to the oldest.
   */
  ghost predicate Tiled(headers: map<nat, Header>, blocks: seq<nat>, brk: nat, lh: nat) {
    && |blocks| > 0 && blocks[0] == HEAP_BASE && lh == blocks[|blocks| - 1]
    && brk % PAGE_SIZE == 0 && HEAP_BASE < brk <= HEAP_LIMIT
    && (forall i :: 0 <= i < |blocks| ==> BlockAt(headers, blocks, brk, i))
    && (forall a :: a in headers <==> a in blocks)
  }

  ghost predicate BlockAt(headers: map<nat, Header>, blocks: seq<nat>, brk: nat, i: nat)
    requires i < |blocks|
  {
    var a := blocks[i];
    && a in headers && a % PAGE_SIZE == 0 && HEAP_BASE <= a
    && headers[a].size > 0 && a + HEADER + headers[a].size == EndOf(blocks, brk, i)
    && headers[a].next == if i == 0 then 0 else blocks[i - 1]
  }

  lemma {:induction false} BlocksAscend(headers: map<nat, Header>, blocks: seq<nat>, brk: nat, lh: nat, i: nat, j: nat)
    requires Tiled(headers, blocks, brk, lh) && i < j < |blocks|
    ensures EndOf(blocks, brk, i) <= blocks[j] < brk
    decreases |blocks| - i, j - i
  {
    assert BlockAt(headers, blocks, brk, i) && BlockAt(headers, blocks, brk, j);
    if i + 1 < j {
      BlocksAscend(headers, blocks, brk, lh, i + 1, j);
      assert BlockAt(headers, blocks, brk, i + 1);
    } else if j + 1 < |blocks| {
      BlocksAscend(headers, blocks, brk, lh, j, j + 1);
      assert BlockAt(headers, blocks, brk, j);
    }
  }

  /** The payloads of two blocks share no byte, and lie inside the heap. */
  lemma PayloadsDisjoint(headers: map<nat, Header>, blocks: seq<nat>, brk: nat, lh: nat, a: nat, b: nat)
    requires Tiled(headers, blocks, brk, lh) && a in headers && b in headers && a != b
    ensures a + HEADER + headers[a].size <= b || b + HEADER + headers[b].size <= a
    ensures HEAP_BASE <= a && a + HEADER + headers[a].size <= brk
  {
    var i :| 0 <= i < |blocks| && blocks[i] == a;
    var j :| 0 <= j < |blocks| && blocks[j] == b;
    assert BlockAt(headers, blocks, brk, i) && BlockAt(headers, blocks, brk, j);
    if i < j { BlocksAscend(headers, blocks, brk, lh, i, j); } else { BlocksAscend(headers, blocks, brk, lh, j, i); }
    if i + 1 < |blocks| { BlocksAscend(headers, blocks, brk, lh, i, i + 1); }
  }

  /** The frame that virtual page number `n` maps to. */
  function FrameAt(m: Memory, pd: FrameNo, n: nat): Option<FrameNo> {
    if n >= FRAME_COUNT then None
    else
      match Lookup(m, pd, PageNo(n))
      case None => None
      case Some(mapping) => Some(mapping.frame)
  }

  /** A frame held by the allocator that is no part of the paging structure. */
  ghost predicate OwnFrame(m: Memory, pd: FrameNo, bits: seq<bool>, f: FrameNo) {
    f < |bits| && bits[f] && !Structure(m, pd, f)
  }

  const FIRST_PAGE := HEAP_BASE / PAGE_SIZE
  const END_PAGE := SLOT_END / PAGE_SIZE

  /** The page is mapped, not for user code, and writable where its directory entry is. */
  predicate KernelOnly(m: Memory, pd: FrameNo, n: nat) {
    n < FRAME_COUNT && Lookup(m, pd, PageNo(n)).Some? && !Lookup(m, pd, PageNo(n)).value.user
    && (Lookup(m, pd, PageNo(n)).value.rw <==> m[pd][PageNo(n).slot].rw)
  }

  /** Heap pages map to distinct frames of their own, for the kernel alone; the pages from the break up are unmapped. */
  ghost predicate Backed(m: Memory, pd: FrameNo, bits: seq<bool>, endPage: nat) {
    && m[pd][PageNo(FIRST_PAGE).slot].present
    && (forall n: nat :: FIRST_PAGE <= n < endPage ==> FrameAt(m, pd, n).Some? && OwnFrame(m, pd, bits, FrameAt(m, pd, n).value))
    && (forall n: nat, n': nat :: FIRST_PAGE <= n < n' < endPage ==> FrameAt(m, pd, n) != FrameAt(m, pd, n'))
    && (forall n: nat :: endPage <= n < END_PAGE ==> FrameAt(m, pd, n) == None)
    && (forall n: nat :: FIRST_PAGE <= n < endPage ==> KernelOnly(m, pd, n))
  }

  /**
   * A heap access never faults: exactly the bytes below the break are mapped, each to a used frame outside the paging
   * structure, and no two of them to one physical byte. User code can reach none of them.
   */
  lemma HeapBytesAreMapped(m: Memory, pd: FrameNo, bits: seq<bool>, brk: nat, va: Vaddr)
    requires Backed(m, pd, bits, brk / PAGE_SIZE) && brk % PAGE_SIZE == 0 && HEAP_BASE <= va < SLOT_END
    ensures Translate(m, pd, va).Some? <==> va < brk
    ensures va < brk ==> OwnFrame(m, pd, bits, Translate(m, pd, va).value / PAGE_SIZE)
    ensures forall vb: Vaddr :: va < vb < brk ==> Translate(m, pd, vb) != Translate(m, pd, va)
    ensures va < brk ==> (
              var w := Lookup(m, pd, PageOf(va));
              w.Some? && !w.value.user && (w.value.rw <==> m[pd][PageOf(va).slot].rw))
  {
    assert va < brk ==> KernelOnly(m, pd, va / PAGE_SIZE);
    assert FrameAt(m, pd, va / PAGE_SIZE).Some? <==> Lookup(m, pd, PageOf(va)).Some?;
    forall vb: Vaddr | va < vb < brk ensures Translate(m, pd, vb) != Translate(m, pd, va) {
      assert FrameAt(m, pd, vb / PAGE_SIZE).Some? && FrameAt(m, pd, va / PAGE_SIZE).Some?;
      if va / PAGE_SIZE < vb / PAGE_SIZE { assert FrameAt(m, pd, va / PAGE_SIZE) != FrameAt(m, pd, vb / PAGE_SIZE); }
    }
  }

  // ---- The arithmetic of kmalloc.c, in 32 bits ----

  /** ALIGN_UP(size, 8) */
  function Align8(size: nat): (s: nat)
    ensures s < TWO32
  {
    Wrap32(size + 7) / 8 * 8
  }

  /** pages_to_get */
  function PagesToGet(size: nat): nat { Wrap32(size + HEADER + PAGE_SIZE - 1) / PAGE_SIZE }

  /** Line 55: the request is refused. */
  predicate PastLimit(brk: nat, size: nat) { Wrap32(Wrap32(brk + size) + HEADER) > HEAP_LIMIT }

  /** create_heap_header answers NULL before it asks for pages. */
  predicate Refused(brk: nat, size: nat) { size == 0 || PagesToGet(size) == 0 || PastLimit(brk, size) }

  /** The request passes the limit test, yet its pages end past the limit. */
  predicate Overreaches(brk: nat, size: nat) { !Refused(brk, size) && brk + PagesToGet(size) * PAGE_SIZE > HEAP_LIMIT }

  /**
   * The limit test is wrong exactly when its sum wraps and the one that counts the pages does not. The block then reaches
   * past 4 GiB, over the window of the page directory.
   */
  lemma OverreachIff(brk: nat, size: nat)
    requires brk % PAGE_SIZE == 0 && HEAP_BASE <= brk <= HEAP_LIMIT && size < TWO32 && !Refused(brk, size)
    ensures Overreaches(brk, size) <==> brk + size + HEADER >= TWO32 && size + HEADER + PAGE_SIZE - 1 < TWO32
    ensures Overreaches(brk, size) ==> brk / PAGE_SIZE + PagesToGet(size) >= FRAME_COUNT
  {
  }

  /** Example: with a heap of one page, 768 MiB pass the limit test of a heap of 400 KiB. */
  lemma LimitTestPassed()
    ensures Overreaches(HEAP_BASE + PAGE_SIZE, 0x3000_0000) && Align8(0x3000_0000) == 0x3000_0000
  {
  }

  /** The request is too small to wrap any of these sums. */
  predicate Small(size: nat) { size + 7 + HEADER + HEAP_LIMIT < TWO32 }

  /**
   * For such requests the unrounded test of line 55 still keeps the rounded block below the limit, and the block is big
   * enough.
   */
  lemma SmallRequestsFit(brk: nat, size: nat)
    requires brk % PAGE_SIZE == 0 && HEAP_BASE <= brk <= HEAP_LIMIT && Small(size) && size > 0
    ensures 0 < size <= Align8(size) < size + 8 && Align8(size) + HEADER + brk < TWO32
    ensures var s, pages := Align8(size), PagesToGet(Align8(size));
      && pages > 0 && s + HEADER <= pages * PAGE_SIZE < s + HEADER + PAGE_SIZE
      && (PastLimit(brk, s) <==> brk + pages * PAGE_SIZE > HEAP_LIMIT)
  {
  }

  /**
   * Whichever block answers a request of `size` bytes, a free one of the rounded size or a new one, it is long enough exactly
   * up to 4 GiB - 16: from there on the rounding or the page count wraps.
   */
  lemma BlockIsLongEnough(brk: nat, size: nat, length: nat)
    requires brk % PAGE_SIZE == 0 && HEAP_BASE <= brk <= HEAP_LIMIT && 0 < size < TWO32
    requires Align8(size) <= length <= HEAP_LIMIT - HEAP_BASE
             || (!Refused(brk, Align8(size)) && length == PagesToGet(Align8(size)) * PAGE_SIZE - HEADER)
    ensures size <= length <==> size <= TWO32 - 16
  {
  }

  /** Example: 4 GiB - 8 passes the limit test and is answered with one page. */
  lemma LargestRequestGetsOnePage(brk: nat)
    requires brk % PAGE_SIZE == 0 && HEAP_BASE <= brk < HEAP_LIMIT
    ensures var size := TWO32 - 8; Align8(size) == size && !Refused(brk, size) && PagesToGet(size) == 1
  {
  }
}
