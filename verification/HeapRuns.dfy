/**
 * Runs of kmalloc, kfree, krealloc and of stores by the owners of blocks: nobody else changes the bytes of a block in
 * use.
 */
module HeapRuns {
  import opened Base
  import opened PageBits
  import opened Paging
  import opened Vmm
  import opened HeapLayout
  import opened HeapMemory
  import opened Heap

  /** The heap, and memory and page bitmap below it. */
  datatype State = State(
    mem: Memory, bits: seq<bool>, headers: map<nat, Header>, blocks: seq<nat>, brk: nat, lh: nat)

  /** A call that returned, or a store of one byte into a block in use. */
  datatype Event =
    | Allocate(size: nat, answer: nat)
    | Release(ptr: Vaddr)
    | Resize(ptr: Vaddr, size: nat, answer: nat)
    | Store(block: nat, i: nat, b: Byte)

  ghost predicate Good(s: State, pd: FrameNo) {
    Sound(s.mem, pd, s.bits, s.brk) && Tiled(s.headers, s.blocks, s.brk, s.lh)
  }

  /** The block whose header is at `a` is in use. */
  predicate InUse(s: State, a: int) {
    a in s.headers && !s.headers[a].free
  }

  ghost predicate Step(s: State, e: Event, t: State, pd: FrameNo) {
    Good(t, pd) && match e
    case Allocate(size, answer) =>
      && size < TWO32 && OnlyTable(s.mem, t.mem, pd, s.brk)
      && (answer != 0 ==> Allocated(s.headers, t.headers, answer - HEADER)) && (answer == 0 ==> t.headers == s.headers)
    case Release(ptr) =>
      t == if ptr >= HEADER && InUse(s, ptr - HEADER)
           then s.(headers := s.headers[ptr - HEADER := s.headers[ptr - HEADER].(free := true)]) else s
    case Resize(ptr, size, answer) =>
      && HEADER <= ptr && InUse(s, ptr - HEADER) && (answer != 0 ==> answer != ptr)
      && var want := if size == 0 then s.headers[ptr - HEADER].size else size;
         if answer == 0 then
           OnlyTable(s.mem, t.mem, pd, s.brk) && t.headers == s.headers[ptr - HEADER := s.headers[ptr - HEADER].(free := true)]
         else
           && answer - HEADER in t.headers && want <= t.headers[answer - HEADER].size
           && ptr - HEADER in t.headers && t.headers[ptr - HEADER] == s.headers[ptr - HEADER].(free := true)
           && Allocated(s.headers, t.headers[ptr - HEADER := s.headers[ptr - HEADER]], answer - HEADER)
           && BytesMoved(s.mem, t.mem, pd, s.brk, ptr, answer, want, s.headers[ptr - HEADER].size)
    case Store(a, i, b) =>
      && InUse(s, a) && i < s.headers[a].size && a + HEADER + i < TWO32
      && Lookup(s.mem, pd, PageOf(a + HEADER + i)).Some?
      && t == s.(mem := ByteStored(s.mem, pd, a + HEADER + i, b))
  }

  ghost predicate Run(s: State, events: seq<Event>, t: State, pd: FrameNo)
    decreases |events|
  {
    if events == [] then s == t
    else
      var before, last := events[..|events| - 1], events[|events| - 1];
      exists mid :: Run(s, before, mid, pd) && Step(mid, last, t, pd)
  }

  /** The event frees, resizes or writes the block at `a`. */
  predicate Touches(e: Event, a: nat) {
    match e
    case Allocate(size, answer) => false
    case Release(ptr) => ptr == a + HEADER
    case Resize(ptr, size, answer) => ptr == a + HEADER
    case Store(block, i, b) => block == a
  }

  /** The block at `a` is in use with the same header, and its payload holds the same bytes. */
  ghost predicate Untouched(s: State, t: State, pd: FrameNo, a: nat)
    requires a in s.headers
  {
    && a in t.headers && t.headers[a] == s.headers[a]
    && a + HEADER + s.headers[a].size <= TWO32
    && SamePayload(s.mem, t.mem, pd, a, s.headers[a].size)
  }

  ghost predicate SamePayload(m: Memory, m': Memory, pd: FrameNo, a: nat, size: nat) {
    forall va: Vaddr :: a + HEADER <= va < a + HEADER + size ==> SameByte(m, m', pd, va)
  }

  ghost predicate SameByte(m: Memory, m': Memory, pd: FrameNo, va: Vaddr) {
    ByteAt(m', pd, va) == ByteAt(m, pd, va)
  }

  /** Over every run the bytes of a block in use stay, unless its owner frees, resizes or writes it. */
  lemma {:induction false} BlocksAreIsolated(s: State, events: seq<Event>, t: State, pd: FrameNo, a: nat)
    requires Good(s, pd) && Run(s, events, t, pd) && InUse(s, a) && forall e <- events :: !Touches(e, a)
    ensures Good(t, pd) && Untouched(s, t, pd, a)
    decreases |events|
  {
    hide Good, Step, ByteAt, Touches;
    if events == [] {
      Itself(s, pd, a);
    } else {
      var before, last := events[..|events| - 1], events[|events| - 1];
      var mid :| Run(s, before, mid, pd) && Step(mid, last, t, pd);
      assert last in events && forall e <- before :: e in events;
      BlocksAreIsolated(s, before, mid, pd, a);
      StepIsIsolated(mid, last, t, pd, a);
      Transitive(s, mid, t, pd, a);
    }
  }

  lemma Itself(s: State, pd: FrameNo, a: nat)
    requires Good(s, pd) && a in s.headers
    ensures Untouched(s, s, pd, a)
  {
    hide Sound, Tiled, ByteAt;
    HeaderBounds(s.headers, s.blocks, s.brk, s.lh, a);
    BreakBounds(s, pd);
  }

  lemma BreakBounds(s: State, pd: FrameNo)
    requires Good(s, pd)
    ensures HEAP_BASE < s.brk <= HEAP_LIMIT
  {
  }

  lemma Transitive(s: State, t: State, u: State, pd: FrameNo, a: nat)
    requires a in s.headers && a in t.headers && Untouched(s, t, pd, a) && Untouched(t, u, pd, a)
    ensures Untouched(s, u, pd, a)
  {
    hide ByteAt;
    forall va: Vaddr | a + HEADER <= va < a + HEADER + s.headers[a].size ensures SameByte(s.mem, u.mem, pd, va) {
      assert SameByte(s.mem, t.mem, pd, va) && SameByte(t.mem, u.mem, pd, va);
    }
  }

  lemma StepIsIsolated(s: State, e: Event, t: State, pd: FrameNo, a: nat)
    requires Good(s, pd) && Step(s, e, t, pd) && InUse(s, a) && !Touches(e, a)
    ensures Good(t, pd) && Untouched(s, t, pd, a)
  {
    hide Sound, Tiled, ByteAt, Allocated, OnlyTable, BytesMoved, Untouched, ByteStored;
    match e {
      case Allocate(size, answer) => AllocateIsIsolated(s, answer, t, pd, a);
      case Release(ptr) => Itself(s, pd, a); SameMemory(s, t, pd, a);
      case Resize(ptr, size, answer) =>
        if answer == 0 { RefusalIsIsolated(s, ptr, t, pd, a); }
        else { ResizeIsIsolated(s, ptr, answer, if size == 0 then s.headers[ptr - HEADER].size else size, t, pd, a); }
      case Store(block, i, b) => StoreIsIsolated(s, block, i, b, t, pd, a);
    }
  }

  lemma SameMemory(s: State, t: State, pd: FrameNo, a: nat)
    requires a in s.headers && Untouched(s, s, pd, a) && t.mem == s.mem && a in t.headers
    requires t.headers[a] == s.headers[a]
    ensures Untouched(s, t, pd, a)
  {
    hide ByteAt;
  }

  /** Bytes below the old break are kept, and the block lies below it. */
  lemma BelowBreak(s: State, m': Memory, pd: FrameNo, a: nat, lo: nat, hi: nat)
    requires Good(s, pd) && a in s.headers && BytesKept(s.mem, m', pd, s.brk, lo, hi)
    requires a + HEADER + s.headers[a].size <= lo || hi <= a + HEADER || hi <= lo
    ensures a + HEADER + s.headers[a].size <= TWO32
    ensures SamePayload(s.mem, m', pd, a, s.headers[a].size)
  {
    hide Sound, Tiled, ByteAt;
    HeaderBounds(s.headers, s.blocks, s.brk, s.lh, a);
    BreakBounds(s, pd);
  }

  lemma AllocateIsIsolated(s: State, answer: nat, t: State, pd: FrameNo, a: nat)
    requires Good(s, pd) && OnlyTable(s.mem, t.mem, pd, s.brk) && InUse(s, a)
    requires answer != 0 ==> Allocated(s.headers, t.headers, answer - HEADER)
    requires answer == 0 ==> t.headers == s.headers
    ensures Untouched(s, t, pd, a)
  {
    hide Good, ByteAt, BytesKept;
    BelowBreak(s, t.mem, pd, a, 0, 0);
  }

  lemma RefusalIsIsolated(s: State, ptr: Vaddr, t: State, pd: FrameNo, a: nat)
    requires Good(s, pd) && OnlyTable(s.mem, t.mem, pd, s.brk) && InUse(s, a) && HEADER <= ptr && InUse(s, ptr - HEADER)
    requires t.headers == s.headers[ptr - HEADER := s.headers[ptr - HEADER].(free := true)] && ptr != a + HEADER
    ensures Untouched(s, t, pd, a)
  {
    hide Good, ByteAt, BytesKept;
    BelowBreak(s, t.mem, pd, a, 0, 0);
  }

  lemma ResizeIsIsolated(s: State, ptr: nat, answer: nat, want: nat, t: State, pd: FrameNo, a: nat)
    requires Good(s, pd) && Good(t, pd) && InUse(s, a) && HEADER <= ptr && InUse(s, ptr - HEADER) && ptr != a + HEADER
    requires answer != ptr && answer - HEADER in t.headers && want <= t.headers[answer - HEADER].size
    requires ptr - HEADER in t.headers && t.headers[ptr - HEADER] == s.headers[ptr - HEADER].(free := true)
    requires Allocated(s.headers, t.headers[ptr - HEADER := s.headers[ptr - HEADER]], answer - HEADER)
    requires BytesMoved(s.mem, t.mem, pd, s.brk, ptr, answer, want, s.headers[ptr - HEADER].size)
    ensures Untouched(s, t, pd, a)
  {
    hide ByteAt, BytesKept, Carried, HeapFrame, Sound, Tiled;
    var headers := t.headers[ptr - HEADER := s.headers[ptr - HEADER]];
    assert a in headers && headers[a] == s.headers[a] && a != answer - HEADER;
    PayloadsDisjoint(t.headers, t.blocks, t.brk, t.lh, a, answer - HEADER);
    BelowBreak(s, t.mem, pd, a, answer, answer + want);
  }

  lemma StoreIsIsolated(s: State, block: nat, i: nat, b: Byte, t: State, pd: FrameNo, a: nat)
    requires Good(s, pd) && InUse(s, a) && InUse(s, block) && block != a && i < s.headers[block].size
    requires block + HEADER + i < TWO32 && Lookup(s.mem, pd, PageOf(block + HEADER + i)).Some?
    requires t == s.(mem := ByteStored(s.mem, pd, block + HEADER + i, b))
    ensures Untouched(s, t, pd, a)
  {
    hide ByteAt, ByteStored, Sound, Tiled;
    var va := block + HEADER + i;
    HeaderBounds(s.headers, s.blocks, s.brk, s.lh, a);
    HeaderBounds(s.headers, s.blocks, s.brk, s.lh, block);
    BreakBounds(s, pd);
    PayloadsDisjoint(s.headers, s.blocks, s.brk, s.lh, a, block);
    StoreKeepsHeap(s.mem, pd, s.bits, s.brk, va, b);
    forall vb: Vaddr | a + HEADER <= vb < a + HEADER + s.headers[a].size ensures SameByte(s.mem, t.mem, pd, vb) {
      OtherByteKept(s.mem, pd, s.bits, s.brk, va, b, vb);
    }
  }

  // ---- The calls are such steps ----

  ghost function View(heap: KernelHeap): State
    reads heap, heap.k`mem, heap.k.pmm`freePages, heap.k.pmm.bitmap
  {
    State(heap.k.mem, heap.k.pmm.Used(), heap.headers, heap.blocks, heap.brk, heap.lh)
  }

  lemma ValidIsGood(heap: KernelHeap)
    requires heap.Valid()
    ensures Good(View(heap), heap.k.cr3)
  {
    hide Tiled, Sound;
    heap.ValidIsSound();
  }

  /** kmalloc, for a request that does not overreach. */
  method AllocateStep(heap: KernelHeap, size: nat) returns (r: Result<nat>)
    requires heap.Valid() && size < TWO32 && !Wrecks(heap.brk, heap.headers, heap.k.pmm.Used(), size)
    modifies heap`brk, heap`lh, heap`headers, heap`blocks, heap.k`mem, heap.k.pmm`freePages, heap.k.pmm.bitmap
    ensures heap.Valid()
    ensures r.Returned? ==> Step(old(View(heap)), Allocate(size, r.value), View(heap), heap.k.cr3)
  {
    hide Tiled, Sound, Backed, Wf, SelfMapped, StructureUsed, Bits, OnlyTable, Allocated, MallocOutcome, Wrecks, Served;
    hide Good;
    ghost var brk, lh, headers, bits := heap.brk, heap.lh, heap.headers, heap.k.pmm.Used();
    TiledBreak(heap.headers, heap.blocks, heap.brk, heap.lh);
    r := heap.Malloc(size);
    BreakAfter(brk, lh, headers, bits, size, r, heap.brk, heap.lh, heap.headers);
    ValidIsGood(heap);
  }

  /** kfree */
  method ReleaseStep(heap: KernelHeap, ptr: Vaddr) returns (ok: bool)
    requires heap.Valid() && (HEAP_BASE <= ptr <= heap.brk ==> ptr - HEADER in heap.headers)
    modifies heap`headers
    ensures heap.Valid() && Step(old(View(heap)), Release(ptr), View(heap), heap.k.cr3)
  {
    hide Tiled, Sound, Backed, Wf, SelfMapped, StructureUsed, Bits, Good;
    TiledBreak(heap.headers, heap.blocks, heap.brk, heap.lh);
    ok := heap.Free(ptr);
    ValidIsGood(heap);
  }

  /** krealloc of a block in use, likewise. */
  method ResizeStep(heap: KernelHeap, ptr: Vaddr, size: nat) returns (r: Result<nat>)
    requires heap.Valid() && size < TWO32 && ptr != 0 && ptr - HEADER in heap.headers
    requires !heap.headers[ptr - HEADER].free
    requires !Wrecks(heap.brk, heap.headers, heap.k.pmm.Used(), Want(heap.headers, ptr, size))
    modifies heap`brk, heap`lh, heap`headers, heap`blocks, heap.k`mem, heap.k.pmm`freePages, heap.k.pmm.bitmap
    ensures heap.Valid()
    ensures r.Returned? ==> Step(old(View(heap)), Resize(ptr, size, r.value), View(heap), heap.k.cr3)
  {
    hide Tiled, Sound, Backed, Wf, SelfMapped, StructureUsed, Bits, OnlyTable, Allocated, Wrecks, Served, ReallocFaults;
    hide BytesMoved, Good, Lost, Wreckage;
    TiledBreak(heap.headers, heap.blocks, heap.brk, heap.lh);
    IsWanted(heap.headers, ptr, size);
    ServedFits(heap.brk, heap.headers, heap.k.pmm.Used(), ptr, Want(heap.headers, ptr, size));
    r := heap.Realloc(ptr, size);
    ValidIsGood(heap);
  }

  /** A krealloc that answers a block was asked for no more than 4 GiB - 16. */
  lemma ServedFits(brk: nat, headers: map<nat, Header>, bits: seq<bool>, ptr: nat, want: nat)
    ensures ptr != 0 && Served(brk, headers, bits, want) && !ReallocFaults(brk, headers, bits, ptr, want) ==>
      want <= TWO32 - 16
  {
  }
}
