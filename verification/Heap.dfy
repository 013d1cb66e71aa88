/** kmalloc, kfree and krealloc over whole pages of the current address space. */
module Heap {
  import opened Base
  import opened PageBits
  import opened Paging
  import opened Pmm
  import opened Vmm
  import opened HeapLayout
  import opened HeapMemory

  /** The headers kmalloc_init leaves: one page, free. */
  const ONE_FREE := map[HEAP_BASE := Header(true, PAGE_SIZE - HEADER, 0)]

  class KernelHeap {
    const k: Machine
    var brk: nat                      // kernel_heap_brk
    var lh: nat                       // kernel_heap_lh: address of the newest header
    var headers: map<nat, Header>     // the headers, by address
    ghost var blocks: seq<nat>        // the header addresses, oldest first

    ghost predicate Valid()
      reads this, k`mem, k`cr3, k.pmm`freePages, k.pmm.bitmap
    {
      && k.Valid()
      && Tiled(headers, blocks, brk, lh)
      && Backed(k.mem, k.cr3, k.pmm.Used(), brk / PAGE_SIZE)
    }

    constructor (k: Machine)
      ensures this.k == k && headers == map[] && blocks == []
    {
      this.k, brk, lh, headers, blocks := k, 0, 0, map[], [];
    }

    /**
     * kmalloc_init: one page, one free block. The heap it starts is sound if the rest of its slot was empty and its
     * table starts empty.
     */
    method Init() returns (r: Result<bool>, ghost mapped: Result<bool>)
      requires k.Valid()
      modifies this`brk, this`lh, this`headers, this`blocks, k`mem, k.pmm`freePages, k.pmm.bitmap
      ensures r == Returned(true) || r == Halted
      ensures FirstPageOutcome(old(k.mem), k.cr3, old(k.pmm.Used()), r, mapped, k.mem, k.pmm.Used())
      ensures r.Returned? ==> brk == HEAP_BASE + PAGE_SIZE && headers == ONE_FREE
      ensures r.Returned? ==> Tiled(headers, blocks, brk, lh)
      ensures old(Clean(k.mem, k.cr3, k.pmm.Used())) ==> (r.Returned? <==> old(CanStart(k.mem, k.cr3, k.pmm.Used())))
      ensures old(Clean(k.mem, k.cr3, k.pmm.Used())) && r.Returned? ==> Valid() && SlotKept(old(k.mem), k.mem, k.cr3)
    {
      hide Tiled, Backed, FirstPageOutcome, Clean, CanStart, SlotKept, Bits, Wf, SelfMapped, StructureUsed;
      r, mapped := MapFirstPage();
      if r.Halted? { return; }
      headers := ONE_FREE;
      brk, lh := HEAP_BASE + PAGE_SIZE, HEAP_BASE;
      blocks := [HEAP_BASE];
      OneBlock(headers);
    }

    lemma OneBlock(headers: map<nat, Header>)
      requires headers == ONE_FREE
      ensures Tiled(headers, [HEAP_BASE], HEAP_BASE + PAGE_SIZE, HEAP_BASE)
    {
      assert BlockAt(headers, [HEAP_BASE], HEAP_BASE + PAGE_SIZE, 0);
    }

    /** kmalloc_init's frame and mapping; both failures panic. `mapped` is the answer of kvmm_map_page. */
    method MapFirstPage() returns (r: Result<bool>, ghost mapped: Result<bool>)
      requires k.Valid()
      modifies k`mem, k.pmm`freePages, k.pmm.bitmap
      ensures r == Returned(true) || r == Halted
      ensures FirstPageOutcome(old(k.mem), k.cr3, old(k.pmm.Used()), r, mapped, k.mem, k.pmm.Used())
      ensures old(Clean(k.mem, k.cr3, k.pmm.Used())) ==> (r.Returned? <==> old(CanStart(k.mem, k.cr3, k.pmm.Used())))
      ensures old(Clean(k.mem, k.cr3, k.pmm.Used())) && r.Returned? ==>
        k.Valid() && Backed(k.mem, k.cr3, k.pmm.Used(), FIRST_PAGE + 1) && SlotKept(old(k.mem), k.mem, k.cr3)
    {
      hide FirstPageOutcome, MapOutcome, AllocOutcome, OnePage, Clean, CanStart, SlotKept, Backed, Wf, SelfMapped;
      hide StructureUsed;
      hide UsedRun, Grown, Bits;
      ghost var m, bits := k.mem, k.pmm.Used();
      mapped := Halted;
      ValidParts();
      var frame := k.pmm.AllocPages(1);
      ghost var bits1 := k.pmm.Used();
      FirstFrame(bits, frame, bits1);
      if frame.Halted? || frame.value == 0 {
        NoFirstPage(m, k.cr3, bits, mapped);
        return Halted, mapped;
      }
      r := k.MapPage(HEAP_BASE, frame.value, KERNEL_RW);
      mapped := r;
      FirstPageDone(m, k.cr3, bits, bits1, frame.value, r, k.mem, k.pmm.Used());
      if r.Halted? || !r.value { return Halted, mapped; }
      if Clean(m, k.cr3, bits) { PartsValid(); }
    }

    lemma PartsValid()
      requires k.Ready() && Wf(k.mem, k.cr3) && StructureUsed(k.mem, k.cr3, k.pmm.Used())
      ensures k.Valid()
    {
    }

    lemma ValidParts()
      requires k.Valid()
      ensures k.pmm.Valid() && k.Ready() && SelfMapped(k.mem, k.cr3) && Wf(k.mem, k.cr3)
      ensures StructureUsed(k.mem, k.cr3, k.pmm.Used())
      ensures 0 < |k.pmm.Used()| <= FRAME_COUNT && k.pmm.Used()[0]
    {
    }

    /** find_free_heap_header: the newest free block that is long enough. */
    method FindFree(size: nat) returns (at: nat)
      requires Tiled(headers, blocks, brk, lh)
      ensures at != 0 ==> at in headers && headers[at].free && headers[at].size >= size
      ensures at == 0 ==> forall a <- headers :: !(headers[a].free && headers[a].size >= size)
      ensures forall a <- headers :: a > at && at != 0 ==> !(headers[a].free && headers[a].size >= size)
    {
      at := lh;
      ghost var i := |blocks| - 1;
      assert BlockAt(headers, blocks, brk, i);
      while at != 0
        invariant -1 <= i < |blocks|
        invariant if i < 0 then at == 0 else at == blocks[i] != 0
        invariant forall j :: i < j < |blocks| ==> !(headers[blocks[j]].free && headers[blocks[j]].size >= size)
        decreases i
      {
        assert BlockAt(headers, blocks, brk, i);
        if headers[at].free && headers[at].size >= size {
          forall a <- headers | a > at ensures !(headers[a].free && headers[a].size >= size) {
            var j :| 0 <= j < |blocks| && blocks[j] == a;
            assert BlockAt(headers, blocks, brk, j);
            if j < i { BlocksAscend(headers, blocks, brk, lh, j, i); }
          }
          return;
        }
        if i > 0 { assert BlockAt(headers, blocks, brk, i - 1); }
        at := headers[at].next;
        i := i - 1;
      }
    }

    /** create_heap_header: a new block of whole pages at the break. */
    method CreateHeader(size: nat) returns (r: Result<nat>)
      requires Valid() && size < TWO32
      modifies this`brk, this`lh, this`headers, this`blocks, k`mem, k.pmm`freePages, k.pmm.bitmap
      ensures k.Ready() && Tiled(headers, blocks, brk, lh)
      ensures !Overruns(old(brk), old(k.pmm.Used()), size) ==> Valid()
      ensures GrowOutcome(old(brk), old(lh), old(headers), old(k.pmm.Used()), size, r, brk, lh, headers)
      ensures !Overruns(old(brk), old(k.pmm.Used()), size) && brk == old(brk) ==>
        k.mem == old(k.mem) && k.pmm.Used() == old(k.pmm.Used())
      ensures !Overruns(old(brk), old(k.pmm.Used()), size) ==> OnlyTable(old(k.mem), k.mem, k.cr3, old(brk))
      ensures Overruns(old(brk), old(k.pmm.Used()), size) ==>
        && Lost(old(k.pmm.Used()), k.pmm.Used(), PagesToGet(size))
        && Wreckage(
             old(k.mem), k.cr3, old(k.pmm.Used()), old(brk), PagesToGet(size), Answered(r), k.mem, k.pmm.Used())
    {
      hide Lost, Wreckage, OnlyTable, Backed, AllocOutcome, UsedRun, NoClearRun, Bits, Wf, SelfMapped, StructureUsed;
      hide BlockAt;
      var pages := PagesToGet(size);
      TiledBreak(headers, blocks, brk, lh);
      NothingTouched(k.mem, k.cr3, brk);
      if size == 0 || pages == 0 {
        return Returned(0);
      }
      if PastLimit(brk, size) {
        return Returned(0);
      }
      OverreachIff(brk, size);
      var mapped := MapBlock(pages, size);
      if mapped.Halted? { return Halted; }
      if !mapped.value {
        return Returned(0);
      }
      var header := brk;
      headers := headers[header := Header(false, pages * PAGE_SIZE - HEADER, lh)];
      lh := header;
      brk := brk + PAGE_SIZE * pages;
      ghost var before := blocks;
      blocks := blocks + [header];
      TiledByOneMore(old(headers), before, header, old(lh), headers, pages);
      return Returned(header);
    }

    /** create_heap_header's frames: allocate them and map them at the break. */
    method MapBlock(pages: nat, ghost size: nat) returns (r: Result<bool>)
      requires Valid() && size < TWO32 && pages == PagesToGet(size) && !Refused(brk, size)
      requires Overreaches(brk, size) ==> brk / PAGE_SIZE + pages >= FRAME_COUNT
      modifies k`mem, k.pmm`freePages, k.pmm.bitmap
      ensures k.Ready()
      ensures BlockOutcome(old(k.pmm.Used()), pages, r, Overreaches(brk, size))
      ensures !Overruns(brk, old(k.pmm.Used()), size) ==> k.Valid()
      ensures r == Returned(true) ==> Backed(k.mem, k.cr3, k.pmm.Used(), brk / PAGE_SIZE + pages)
      ensures !Overruns(brk, old(k.pmm.Used()), size) && r != Returned(true) ==>
        k.mem == old(k.mem) && k.pmm.Used() == old(k.pmm.Used())
      ensures !Overruns(brk, old(k.pmm.Used()), size) ==> OnlyTable(old(k.mem), k.mem, k.cr3, brk)
      ensures Overruns(brk, old(k.pmm.Used()), size) ==>
        && Lost(old(k.pmm.Used()), k.pmm.Used(), pages)
        && Wreckage(old(k.mem), k.cr3, old(k.pmm.Used()), brk, pages, r, k.mem, k.pmm.Used())
    {
      hide Tiled, Backed, AllocOutcome, RangeOutcome, TakenVisible, TablesPresent, FreeVisible, Wf, SelfMapped;
      hide StructureUsed;
      hide UsedRun, NoClearRun, ClearRun, SetRun, Grown, Bits, PagesToGet, Refused, Lost, RangeRun, LeftmostRun;
      hide OnlyTable;
      TiledBreak(headers, blocks, brk, lh);
      ValidParts();
      ghost var m, bits := k.mem, k.pmm.Used();
      NothingTouched(m, k.cr3, brk);
      var frame := k.pmm.AllocPages(pages);
      ghost var bits1 := k.pmm.Used();
      PositivePages(brk, size);
      RunTaken(bits, pages, frame, bits1);
      if frame.Halted? { return Halted; }
      if frame.value == 0 {
        return Returned(false);
      }
      r := k.MapRange(brk, frame.value, KERNEL_RW, pages);
      RunIsLost(bits, bits1, k.pmm.Used(), frame.value / PAGE_SIZE, pages);
      if !Overreaches(brk, size) {
        StillUsed(m, k.cr3, bits, bits1);
        MappingSucceeds(m, k.cr3, bits, bits1, brk, frame.value, pages, r, k.mem, k.pmm.Used());
        MappingTouchesTable(m, k.cr3, bits, bits1, brk, frame.value, pages, r, k.mem, k.pmm.Used());
        PartsValid();
      }
    }

    /** kmalloc */
    method Malloc(size: nat) returns (r: Result<nat>)
      requires Valid() && size < TWO32
      modifies this`brk, this`lh, this`headers, this`blocks, k`mem, k.pmm`freePages, k.pmm.bitmap
      ensures k.Ready() && Tiled(headers, blocks, brk, lh) && brk <= HEAP_LIMIT
      ensures !Wrecks(old(brk), old(headers), old(k.pmm.Used()), size) ==> Valid()
      ensures MallocOutcome(old(brk), old(lh), old(headers), old(k.pmm.Used()), size, r, brk, lh, headers)
      ensures !Wrecks(old(brk), old(headers), old(k.pmm.Used()), size) && brk == old(brk) ==>
        k.mem == old(k.mem) && k.pmm.Used() == old(k.pmm.Used())
      ensures !Wrecks(old(brk), old(headers), old(k.pmm.Used()), size) ==> OnlyTable(old(k.mem), k.mem, k.cr3, old(brk))
      ensures Wrecks(old(brk), old(headers), old(k.pmm.Used()), size) ==>
        && Lost(old(k.pmm.Used()), k.pmm.Used(), PagesToGet(Align8(size)))
        && Wreckage(
             old(k.mem), k.cr3, old(k.pmm.Used()), old(brk), PagesToGet(Align8(size)), Answered(r), k.mem, k.pmm.Used())
      ensures r.Returned? && r.value != 0 <==> Served(old(brk), old(headers), old(k.pmm.Used()), size)
      ensures r.Returned? && r.value != 0 ==>
        HEAP_BASE + HEADER <= r.value && Allocated(old(headers), headers, r.value - HEADER)
      ensures r.Returned? && r.value != 0 ==> (headers[r.value - HEADER].size >= size <==> size <= TWO32 - 16)
    {
      hide Backed, Tiled, GrowOutcome, MallocOutcome, Overruns, Overreaches, Refused, Served, Allocated, NoFreeBlock;
      hide NewestFree, Wrecks, Lost, Wreckage, OnlyTable;
      hide Bits, Wf, SelfMapped, StructureUsed, Align8;
      TiledBreak(headers, blocks, brk, lh);
      NothingTouched(k.mem, k.cr3, brk);
      if size == 0 {
        NothingAsked(brk, lh, headers, k.pmm.Used());
        return Returned(0);
      }
      var s := Align8(size);
      var header := FindFree(s);
      if header == 0 {
        r := CreateHeader(s);
        MallocGrew(old(brk), old(lh), old(headers), old(k.pmm.Used()), size, r, brk, lh, headers);
        r := if r.Returned? && r.value != 0 then Returned(r.value + HEADER) else r;
      } else {
        Take(header);
        r := Returned(header + HEADER);
        MallocReused(brk, lh, old(headers), old(k.pmm.Used()), size, header);
      }
      TiledBreak(headers, blocks, brk, lh);
      MallocMeaning(old(brk), old(lh), old(headers), old(blocks), old(k.pmm.Used()), size, r, brk, lh, headers);
    }

    /** A free block is used again. */
    method Take(header: nat)
      requires Valid() && header in headers
      modifies this`headers
      ensures Valid() && headers == old(headers)[header := old(headers)[header].(free := false)]
    {
      headers := headers[header := headers[header].(free := false)];
      TiledByFlag(old(headers), blocks, brk, lh, header, false);
    }

    /** kfree: `ptr` is NULL, outside the heap, or was answered by kmalloc. */
    method Free(ptr: Vaddr) returns (ok: bool)
      requires Tiled(headers, blocks, brk, lh) && (HEAP_BASE <= ptr <= brk ==> ptr - HEADER in headers)
      modifies this`headers
      ensures Tiled(headers, blocks, brk, lh) && (old(Valid()) ==> Valid())
      ensures ok <==> HEAP_BASE <= ptr <= brk && !old(headers)[ptr - HEADER].free
      ensures headers == if ok then old(headers)[ptr - HEADER := old(headers)[ptr - HEADER].(free := true)] else old(headers)
    {
      if ptr == 0 || ptr < HEAP_BASE || ptr > brk {
        return false;
      }
      var header := ptr - HEADER;
      if headers[header].free {
        return false;
      }
      headers := headers[header := headers[header].(free := true)];
      TiledByFlag(old(headers), blocks, brk, lh, header, true);
      return true;
    }

    lemma ValidIsSound()
      requires Valid()
      ensures Sound(k.mem, k.cr3, k.pmm.Used(), brk) && brk <= HEAP_LIMIT < SLOT_END && brk % PAGE_SIZE == 0
    {
      TiledBreak(headers, blocks, brk, lh);
    }

    lemma SoundIsValid()
      requires k.Ready() && Tiled(headers, blocks, brk, lh) && Sound(k.mem, k.cr3, k.pmm.Used(), brk)
      ensures Valid()
    {
    }

    /** Read a byte; None is a page fault. */
    method LoadByte(va: Vaddr) returns (b: Option<Byte>)
      ensures b == ByteAt(k.mem, k.cr3, va)
    {
      var word := k.Load(PageOf(va), va % PAGE_SIZE / 4);
      if word.None? { return None; }
      b := Some(WordByte(word.value, va % 4));
    }

    /** Write a byte; false is a page fault. */
    method StoreByte(va: Vaddr, b: Byte) returns (ok: bool)
      modifies k`mem
      ensures ok <==> Lookup(old(k.mem), k.cr3, PageOf(va)).Some?
      ensures k.mem == if ok then ByteStored(old(k.mem), k.cr3, va, b) else old(k.mem)
    {
      var word := k.Load(PageOf(va), va % PAGE_SIZE / 4);
      if word.None? { return false; }
      ok := k.Store(PageOf(va), va % PAGE_SIZE / 4, WithByte(word.value, va % 4, b));
    }

    /** kmemcpy between two places of the heap: it faults exactly when one of them runs past the break. */
    method Copy(dst: nat, src: nat, n: nat) returns (ok: bool)
      requires Valid() && HEAP_BASE <= src <= brk && HEAP_BASE <= dst <= brk
      modifies k`mem
      ensures ok <==> src + n <= brk && dst + n <= brk
      ensures Valid() && HeapOnly(old(k.mem), k.mem, k.cr3, brk)
      ensures ok ==> Copied(old(k.mem), k.mem, k.cr3, brk, dst, src, n)
    {
      hide Tiled, Sound, Backed, Wf, SelfMapped, StructureUsed, HeapOnly, Copied, ByteAt, ByteStored, Bits;
      ValidIsSound();
      NothingCopied(k.mem, k.cr3, brk, dst, src);
      var i := 0;
      while i < n
        invariant 0 <= i <= n && src + i <= brk && dst + i <= brk && Valid()
        invariant HeapOnly(old(k.mem), k.mem, k.cr3, brk) && Copied(old(k.mem), k.mem, k.cr3, brk, dst, src, i)
      {
        ok := CopyByte(old(k.mem), dst, src, i);
        if !ok { return; }
        i := i + 1;
      }
      ok := true;
    }

    /** One turn of kmemcpy. */
    method CopyByte(ghost m: Memory, dst: nat, src: nat, i: nat) returns (ok: bool)
      requires Valid() && HEAP_BASE <= src && src + i <= brk <= HEAP_LIMIT && HEAP_BASE <= dst && dst + i <= brk
      requires HeapOnly(m, k.mem, k.cr3, brk) && Copied(m, k.mem, k.cr3, brk, dst, src, i)
      modifies k`mem
      ensures Valid() && HeapOnly(m, k.mem, k.cr3, brk)
      ensures ok <==> src + i < brk && dst + i < brk
      ensures ok ==> Copied(m, k.mem, k.cr3, brk, dst, src, i + 1)
    {
      hide Tiled, Sound, Backed, Wf, SelfMapped, StructureUsed, HeapOnly, Copied, ByteAt, ByteStored, Bits, HeapFrame;
      hide Lookup;
      ValidIsSound();
      MappedByte(k.mem, k.cr3, k.pmm.Used(), brk, src + i);
      MappedByte(k.mem, k.cr3, k.pmm.Used(), brk, dst + i);
      var b := LoadByte(src + i);
      if b.None? { return false; }
      ghost var m1 := k.mem;
      ok := StoreByte(dst + i, b.value);
      if !ok { return; }
      OneCopied(m, m1, k.mem, k.cr3, k.pmm.Used(), brk, dst, src, i, b.value);
      SoundIsValid();
    }

    /** The end of krealloc: the bytes go to the new block, and the old block becomes free. */
    method MoveBlock(to: nat, ptr: Vaddr, n: nat) returns (ok: bool)
      requires Valid() && HEADER <= to && to - HEADER in headers && HEADER <= ptr && ptr - HEADER in headers
      requires to != ptr
      requires !headers[ptr - HEADER].free && (ptr + n <= brk ==> n <= headers[to - HEADER].size)
      modifies this`headers, k`mem
      ensures ok <==> ptr + n <= brk
      ensures Valid()
      ensures ok ==> BlockCarried(old(k.mem), k.mem, k.cr3, brk, ptr, to, n, old(headers)[ptr - HEADER].size)
      ensures headers == if ok then old(headers)[ptr - HEADER := old(headers)[ptr - HEADER].(free := true)] else old(headers)
    {
      hide Tiled, BlockCarried, HeapOnly, Copied, Bits;
      TiledBreak(headers, blocks, brk, lh);
      ok := Copy(to, ptr, n);
      if !ok { return; }
      PayloadsDisjoint(headers, blocks, brk, lh, ptr - HEADER, to - HEADER);
      ArrivesWhole(old(k.mem), k.mem, k.cr3, brk, ptr, to, n, headers[ptr - HEADER].size, headers[to - HEADER].size);
      var freed := Free(ptr);
    }

    /**
     * krealloc: copies `size` bytes however long the old block is; the copy faults when it runs past the break. The bytes of the
     * old block arrive, as many as are asked for, and no byte outside the new block changes.
     */
    method Realloc(ptr: Vaddr, size: nat) returns (r: Result<nat>)
      requires Valid() && size < TWO32
      requires ptr != 0 ==> ptr - HEADER in headers && !headers[ptr - HEADER].free
      requires size == 0 ==> ptr != 0
      modifies this`brk, this`lh, this`headers, this`blocks, k`mem, k.pmm`freePages, k.pmm.bitmap
      ensures k.Ready() && Tiled(headers, blocks, brk, lh) && old(brk) <= brk
      ensures var want := old(Want(headers, ptr, size));
        && (!Wrecks(old(brk), old(headers), old(k.pmm.Used()), want) ==> Valid())
        && (old(ReallocFaults(brk, headers, k.pmm.Used(), ptr, want)) ==> r == Halted)
        && (!Wrecks(old(brk), old(headers), old(k.pmm.Used()), want) ==>
              (r == Halted <==> old(ReallocFaults(brk, headers, k.pmm.Used(), ptr, want))))
      ensures var want := old(Want(headers, ptr, size));
        Wrecks(old(brk), old(headers), old(k.pmm.Used()), want) ==>
          && Lost(old(k.pmm.Used()), k.pmm.Used(), PagesToGet(Align8(want)))
          && Wreckage(
               old(k.mem), k.cr3, old(k.pmm.Used()), old(brk), PagesToGet(Align8(want)), Answered(r), k.mem, k.pmm.Used())
      ensures r.Returned? && r.value != 0 <==>
        old(Served(brk, headers, k.pmm.Used(), Want(headers, ptr, size))
            && !ReallocFaults(brk, headers, k.pmm.Used(), ptr, Want(headers, ptr, size)))
      ensures r.Returned? && r.value != 0 ==>
        && HEAP_BASE + HEADER <= r.value
        && r.value - HEADER in headers && Allocated(
             old(headers), if ptr == 0 then headers else headers[ptr - HEADER := old(headers)[ptr - HEADER]], r.value - HEADER)
        && (headers[r.value - HEADER].size >= old(Want(headers, ptr, size)) <==> old(Want(headers, ptr, size)) <= TWO32 - 16)
      ensures r.Returned? && r.value != 0 && ptr != 0 ==>
        r.value != ptr && ptr - HEADER in headers && headers[ptr - HEADER] == old(headers)[ptr - HEADER].(free := true)
      ensures r == Returned(0) ==>
        headers == if ptr == 0 then old(headers) else old(headers)[ptr - HEADER := old(headers)[ptr - HEADER].(free := true)]
      ensures r.Returned? && r.value != 0 ==>
        BytesMoved(
          old(k.mem), k.mem, k.cr3, old(brk), ptr, r.value, old(Want(headers, ptr, size)),
          if ptr == 0 then 0 else old(headers)[ptr - HEADER].size)
      ensures r == Returned(0) && !Wrecks(old(brk), old(headers), old(k.pmm.Used()), old(Want(headers, ptr, size))) ==>
        OnlyTable(old(k.mem), k.mem, k.cr3, old(brk))
    {
      hide Tiled, Backed, MallocOutcome, Wrecks, Served, ReallocFaults, Allocated, Lost, Wreckage, OnlyTable;
      hide BytesMoved;
      hide BlockCarried, Want, PagesToGet, Align8, Wf, SelfMapped, StructureUsed, Bits;
      var want := size;
      TiledBreak(headers, blocks, brk, lh);
      if size == 0 {
        want := headers[ptr - HEADER].size;
      }
      IsWanted(headers, ptr, size);
      WreckedIsNotServed(brk, headers, k.pmm.Used(), want);
      r := Malloc(want);
      ReallocDecided(old(brk), old(lh), old(headers), old(k.pmm.Used()), ptr, want, r, brk, lh, headers);
      if r.Halted? { return; }
      TiledBreak(headers, blocks, brk, lh);
      if ptr == 0 {
        if r.value != 0 { NothingToMove(old(k.mem), k.mem, k.cr3, old(brk), headers, r.value, want); }
        return;
      }
      if r.value != 0 { OthersKept(old(headers), headers, r.value - HEADER, ptr - HEADER); }
      ghost var m1 := k.mem;
      r := Settle(r.value, ptr, want);
      if r.Returned? && r.value != 0 {
        MovedSince(old(k.mem), m1, k.mem, k.cr3, old(brk), brk, ptr, r.value, want, old(headers)[ptr - HEADER].size);
      }
    }

    /** The end of krealloc: with a new block the bytes move; the old block becomes free in any case. */
    method Settle(to: nat, ptr: Vaddr, n: nat) returns (r: Result<nat>)
      requires Tiled(headers, blocks, brk, lh) && HEADER <= ptr && ptr - HEADER in headers
      requires !headers[ptr - HEADER].free
      requires k.Ready() && (to != 0 ==> Valid() && HEADER <= to && to - HEADER in headers && to != ptr)
      requires to != 0 && ptr + n <= brk ==> n <= headers[to - HEADER].size
      modifies this`headers, k`mem
      ensures Tiled(headers, blocks, brk, lh) && k.Ready() && (old(Valid()) ==> Valid())
      ensures r == if to != 0 && ptr + n > brk then Halted else Returned(to)
      ensures r.Returned? ==> headers == old(headers)[ptr - HEADER := old(headers)[ptr - HEADER].(free := true)]
      ensures r.Returned? && to != 0 ==>
        BlockCarried(old(k.mem), k.mem, k.cr3, brk, ptr, to, n, old(headers)[ptr - HEADER].size)
      ensures to == 0 ==> k.mem == old(k.mem)
    {
      hide Tiled, BlockCarried, Backed, Wf, SelfMapped, StructureUsed, Bits;
      TiledBreak(headers, blocks, brk, lh);
      r := Returned(to);
      if to == 0 {
        var freed := Free(ptr);
      } else {
        var ok := MoveBlock(to, ptr, n);
        if !ok { return Halted; }
      }
    }
  }

  /**
   * kmalloc_init panics exactly when no page is free or kvmm_map_page, for the lowest free page, does not answer OK.
   */
  ghost predicate FirstPageOutcome(
    m: Memory, pd: FrameNo, bits: seq<bool>, r: Result<bool>, mapped: Result<bool>, m': Memory, bits': seq<bool>)
  {
    if UsedRun(bits, 0, |bits|) then r == Halted && m' == m && bits' == bits
    else exists a: FrameNo ::
      && a < |bits| && LeftmostRun(bits, a, 1) && (r.Returned? <==> mapped == Returned(true))
      && MapOutcome(m, pd, bits[a := true], HEAP_BASE, a * PAGE_SIZE, KERNEL_RW, mapped, m', bits')
  }

  lemma PositivePages(brk: nat, size: nat)
    requires !Refused(brk, size)
    ensures PagesToGet(size) > 0
    ensures Overreaches(brk, size) <==> brk + PagesToGet(size) * PAGE_SIZE > HEAP_LIMIT
  {
  }

  /** A run from the allocator: its frames were clear and are used now; NULL or a panic leaves the bitmap alone. */
  lemma RunTaken(bits: seq<bool>, n: nat, r: Result<nat>, bits': seq<bool>)
    requires 0 < |bits| <= FRAME_COUNT && bits[0] && n > 0 && AllocOutcome(bits, n, r, bits')
    ensures r == Halted ==> !UsedRun(bits, 0, |bits|) && NoClearRun(bits, n) && bits' == bits
    ensures r == Returned(0) ==> UsedRun(bits, 0, |bits|) && bits' == bits
    ensures r.Returned? && r.value != 0 ==>
      && !UsedRun(bits, 0, |bits|) && !NoClearRun(bits, n)
      && r.value < TWO32 && r.value % PAGE_SIZE == 0 && ClearRun(bits, r.value / PAGE_SIZE, n)
      && LeftmostRun(bits, r.value / PAGE_SIZE, n)
      && bits' == SetRun(bits, r.value / PAGE_SIZE, n, true) && Grown(bits, bits')
  {
    NoRunAtZero(bits, n);
  }

  /** One page from the allocator: the lowest free one, or NULL when there is none. */
  lemma FirstFrame(bits: seq<bool>, r: Result<nat>, bits': seq<bool>)
    requires 0 < |bits| <= FRAME_COUNT && bits[0] && AllocOutcome(bits, 1, r, bits')
    ensures r.Returned? && r.value < TWO32 && |bits'| == |bits| && bits'[0]
    ensures if r.value == 0 then UsedRun(bits, 0, |bits|) && bits' == bits
            else OnePage(bits, r.value, bits')
  {
    SinglePage(bits);
  }

  ghost predicate OnePage(bits: seq<bool>, addr: nat, bits': seq<bool>) {
    && addr < TWO32 && addr % PAGE_SIZE == 0 && addr / PAGE_SIZE < |bits| && !bits[addr / PAGE_SIZE]
    && LeftmostRun(bits, addr / PAGE_SIZE, 1) && bits' == bits[addr / PAGE_SIZE := true]
  }

  lemma NoFirstPage(m: Memory, pd: FrameNo, bits: seq<bool>, mapped: Result<bool>)
    requires |bits| > 0 && bits[0] && UsedRun(bits, 0, |bits|)
    ensures FirstPageOutcome(m, pd, bits, Halted, mapped, m, bits) && !CanStart(m, pd, bits)
  {
    NoPageNoStart(m, pd, bits);
  }

  lemma FirstPageDone(
    m: Memory, pd: FrameNo, bits: seq<bool>, bits1: seq<bool>, addr: nat, mapped: Result<bool>, m': Memory,
    bits2: seq<bool>)
    requires Wf(m, pd) && StructureUsed(m, pd, bits) && |bits| <= FRAME_COUNT && OnePage(bits, addr, bits1)
    requires Grown(bits1, bits2)
    requires MapOutcome(m, pd, bits1, HEAP_BASE, addr, KERNEL_RW, mapped, m', bits2)
    ensures FirstPageOutcome(m, pd, bits, if mapped == Returned(true) then mapped else Halted, mapped, m', bits2)
    ensures Clean(m, pd, bits) ==> (mapped == Returned(true) <==> CanStart(m, pd, bits))
    ensures Clean(m, pd, bits) && mapped == Returned(true) ==>
      Wf(m', pd) && StructureUsed(m', pd, bits2) && Backed(m', pd, bits2, FIRST_PAGE + 1) && SlotKept(m, m', pd)
  {
    hide MapOutcome, CanStart, Backed, Wf, StructureUsed, SlotKept;
    assert !UsedRun(bits, 0, |bits|) by { assert !bits[addr / PAGE_SIZE]; }
    assert addr == addr / PAGE_SIZE * PAGE_SIZE;
    if Clean(m, pd, bits) {
      StillUsed(m, pd, bits, bits1);
      TableAfterFirst(m, pd, bits, addr, bits1);
      StartDecided(m, pd, bits, bits1, addr, mapped, m', bits2);
      if mapped == Returned(true) { FirstPageBacked(m, pd, bits, bits1, addr, mapped, m', bits2); }
    }
  }

  lemma StillUsed(m: Memory, pd: FrameNo, bits: seq<bool>, bits1: seq<bool>)
    requires StructureUsed(m, pd, bits) && Grown(bits, bits1)
    ensures StructureUsed(m, pd, bits1)
  {
  }

  lemma TableAfterFirst(m: Memory, pd: FrameNo, bits: seq<bool>, addr: nat, bits1: seq<bool>)
    requires OnePage(bits, addr, bits1) && SecondFreeVisible(m, pd, bits, PageNo(FIRST_PAGE).slot)
    ensures TableVisible(m, pd, bits1, PageNo(FIRST_PAGE).slot)
  {
  }

  /** The directory entry of the heap: as before, or new and for the kernel to write. */
  ghost predicate SlotKept(m: Memory, m': Memory, pd: FrameNo) {
    var pde := m'[pd][PageNo(FIRST_PAGE).slot];
    if m[pd][PageNo(FIRST_PAGE).slot].present then pde == m[pd][PageNo(FIRST_PAGE).slot] else pde.rw && !pde.user
  }

  /** The heap's slot is empty, and the table it may need is reachable. */
  ghost predicate Clean(m: Memory, pd: FrameNo, bits: seq<bool>) {
    NothingMapped(m, pd) && SecondFreeVisible(m, pd, bits, PageNo(FIRST_PAGE).slot)
  }

  /** The heap's slot is still empty. */
  ghost predicate NothingMapped(m: Memory, pd: FrameNo) {
    forall n: nat :: FIRST_PAGE <= n < END_PAGE ==> FrameAt(m, pd, n) == None
  }

  /** Block `at`, free or new before, is now in use; the other blocks are as they were. */
  ghost predicate Allocated(before: map<nat, Header>, after: map<nat, Header>, at: int) {
    && at in after && !after[at].free
    && (at in before ==> before[at].free && after[at].size == before[at].size)
    && (forall a :: a in after <==> a in before || a == at)
    && (forall a <- before :: a != at ==> after[a] == before[a])
  }

  /** No block of the list could be reused. */
  ghost predicate NoFreeBlock(headers: map<nat, Header>, size: nat) {
    forall a <- headers :: !(headers[a].free && headers[a].size >= size)
  }

  /** The newest free block that is long enough. */
  ghost predicate NewestFree(headers: map<nat, Header>, size: nat, at: nat) {
    && at in headers && headers[at].free && headers[at].size >= size
    && forall a <- headers :: a > at ==> !(headers[a].free && headers[a].size >= size)
  }

  /** The growth takes pages from the allocator that it cannot map below the limit. */
  ghost predicate Overruns(brk: nat, bits: seq<bool>, size: nat) {
    Overreaches(brk, size) && !UsedRun(bits, 0, |bits|) && !NoClearRun(bits, PagesToGet(size))
  }

  /** What create_heap_header answers for a rounded size, and the heap after it. */
  ghost predicate GrowOutcome(
    brk: nat, lh: nat, headers: map<nat, Header>, bits: seq<bool>, size: nat,
    r: Result<nat>, brk': nat, lh': nat, headers': map<nat, Header>)
  {
    var pages := PagesToGet(size);
    if Refused(brk, size) || UsedRun(bits, 0, |bits|) then
      r == Returned(0) && brk' == brk && lh' == lh && headers' == headers
    else if NoClearRun(bits, pages) then
      r == Halted && brk' == brk && lh' == lh && headers' == headers
    else if Overreaches(brk, size) then
      (r == Halted || r == Returned(0)) && brk' == brk && lh' == lh && headers' == headers
    else
      && r == Returned(brk) && brk' == brk + pages * PAGE_SIZE && lh' == brk
      && headers' == headers[brk := Header(false, pages * PAGE_SIZE - HEADER, lh)]
  }

  /** The same for its frames: mapped unless there are none, or the range reaches the window of the directory. */
  ghost predicate BlockOutcome(bits: seq<bool>, pages: nat, r: Result<bool>, over: bool) {
    if UsedRun(bits, 0, |bits|) then r == Returned(false)
    else if NoClearRun(bits, pages) then r == Halted
    else if over then r != Returned(true)
    else r == Returned(true)
  }

  /** What kmalloc answers, and the heap after it. */
  ghost predicate MallocOutcome(
    brk: nat, lh: nat, headers: map<nat, Header>, bits: seq<bool>, size: nat,
    r: Result<nat>, brk': nat, lh': nat, headers': map<nat, Header>)
  {
    var s := Align8(size);
    if size == 0 then
      r == Returned(0) && brk' == brk && lh' == lh && headers' == headers
    else if NoFreeBlock(headers, s) then
      if r.Returned? && r.value != 0 then
        r.value > HEADER && GrowOutcome(brk, lh, headers, bits, s, Returned(r.value - HEADER), brk', lh', headers')
      else GrowOutcome(brk, lh, headers, bits, s, r, brk', lh', headers')
    else
      && r.Returned? && r.value >= HEADER && NewestFree(headers, s, r.value - HEADER)
      && brk' == brk && lh' == lh && headers' == headers[r.value - HEADER := headers[r.value - HEADER].(free := false)]
  }

  /**
   * kmalloc answers a block: a free one is long enough, or the new one fits below the limit and its frames are there.
   */
  ghost predicate Served(brk: nat, headers: map<nat, Header>, bits: seq<bool>, size: nat) {
    size != 0 && (!NoFreeBlock(headers, Align8(size)) || Grows(brk, bits, Align8(size)))
  }

  ghost predicate Grows(brk: nat, bits: seq<bool>, size: nat) {
    !Refused(brk, size) && !Overreaches(brk, size) && !UsedRun(bits, 0, |bits|) && !NoClearRun(bits, PagesToGet(size))
  }

  /** kmalloc panics: a run of the length asked is missing while some page is free. */
  ghost predicate Panics(brk: nat, headers: map<nat, Header>, bits: seq<bool>, size: nat) {
    && size != 0 && NoFreeBlock(headers, Align8(size)) && !Refused(brk, Align8(size))
    && !UsedRun(bits, 0, |bits|) && NoClearRun(bits, PagesToGet(Align8(size)))
  }

  /** kmalloc takes pages and loses them: the limit test let a block through that reaches past 4 GiB. */
  ghost predicate Wrecks(brk: nat, headers: map<nat, Header>, bits: seq<bool>, size: nat) {
    size != 0 && NoFreeBlock(headers, Align8(size)) && Overruns(brk, bits, Align8(size))
  }

  /** Frames that were free are used now, a run of them as long as the block, and no frame became free. */
  ghost predicate Lost(bits: seq<bool>, bits': seq<bool>, pages: nat) {
    pages > 0 && Grown(bits, bits') && exists a: nat :: ClearRun(bits, a, pages) && UsedRun(bits', a, pages)
  }

  /** What the mapping behind a request without a block answered: it halted, or some page could not be mapped. */
  function Answered(r: Result<nat>): Result<bool> {
    if r.Halted? then Halted else Returned(false)
  }

  /** The lowest run of free frames is taken, and mapped at the break page by page until one mapping fails. */
  ghost predicate Wreckage(
    m: Memory, pd: FrameNo, bits: seq<bool>, brk: nat, pages: nat, r: Result<bool>, m': Memory, bits': seq<bool>)
  {
    brk < TWO32 && r != Returned(true) && exists addr: Vaddr ::
      && addr % PAGE_SIZE == 0 && LeftmostRun(bits, addr / PAGE_SIZE, pages)
      && RangeRun(m, pd, SetRun(bits, addr / PAGE_SIZE, pages, true), brk, addr, KERNEL_RW, pages, r, m', bits')
  }

  lemma RunIsLost(bits: seq<bool>, bits1: seq<bool>, bits2: seq<bool>, at: nat, pages: nat)
    requires pages > 0 && ClearRun(bits, at, pages) && bits1 == SetRun(bits, at, pages, true) && Grown(bits1, bits2)
    ensures Lost(bits, bits2, pages) && bits2 != bits
  {
    assert UsedRun(bits2, at, pages);
    assert !bits[at] && bits2[at];
  }

  /** The number of bytes krealloc asks for, and copies. */
  function Want(headers: map<nat, Header>, ptr: nat, size: nat): nat {
    if size == 0 && ptr >= HEADER && ptr - HEADER in headers then headers[ptr - HEADER].size else size
  }

  /**
   * krealloc faults or panics: the allocation panics, or it reuses a free block and the copy runs past the break.
   * (A new block moves the break far enough.)
   */
  ghost predicate ReallocFaults(brk: nat, headers: map<nat, Header>, bits: seq<bool>, ptr: nat, want: nat) {
    || Panics(brk, headers, bits, want)
    || (ptr != 0 && want != 0 && !NoFreeBlock(headers, Align8(want)) && ptr + want > brk)
    || (ptr != 0 && want > TWO32 - 16 && Served(brk, headers, bits, want))
  }

  lemma TiledByFlag(headers: map<nat, Header>, blocks: seq<nat>, brk: nat, lh: nat, at: nat, free: bool)
    requires Tiled(headers, blocks, brk, lh) && at in headers
    ensures Tiled(headers[at := headers[at].(free := free)], blocks, brk, lh)
  {
    var headers' := headers[at := headers[at].(free := free)];
    forall i | 0 <= i < |blocks| ensures BlockAt(headers', blocks, brk, i) {
      assert BlockAt(headers, blocks, brk, i);
    }
  }

  lemma HeaderBounds(headers: map<nat, Header>, blocks: seq<nat>, brk: nat, lh: nat, at: nat)
    requires Tiled(headers, blocks, brk, lh) && at in headers
    ensures HEAP_BASE <= at && at + HEADER + headers[at].size <= brk && Small(headers[at].size) && headers[at].size > 0
  {
    var i :| 0 <= i < |blocks| && blocks[i] == at;
    assert BlockAt(headers, blocks, brk, i);
    if i + 1 < |blocks| { BlocksAscend(headers, blocks, brk, lh, i, i + 1); }
  }

  lemma TiledByOneMore(
    headers: map<nat, Header>, blocks: seq<nat>, brk: nat, lh: nat, headers': map<nat, Header>, pages: nat)
    requires Tiled(headers, blocks, brk, lh) && pages > 0 && brk + pages * PAGE_SIZE <= HEAP_LIMIT
    requires headers' == headers[brk := Header(false, pages * PAGE_SIZE - HEADER, lh)]
    ensures Tiled(headers', blocks + [brk], brk + pages * PAGE_SIZE, brk)
  {
    var blocks', brk' := blocks + [brk], brk + pages * PAGE_SIZE;
    forall i | 0 <= i < |blocks'| ensures BlockAt(headers', blocks', brk', i) {
      if i < |blocks| {
        assert BlockAt(headers, blocks, brk, i);
        if i + 1 < |blocks| { BlocksAscend(headers, blocks, brk, lh, i, i + 1); }
      }
    }
  }

  lemma TiledBreak(headers: map<nat, Header>, blocks: seq<nat>, brk: nat, lh: nat)
    requires Tiled(headers, blocks, brk, lh)
    ensures brk % PAGE_SIZE == 0 && 0 < HEAP_BASE < brk <= HEAP_LIMIT && brk !in headers
    ensures forall a <- headers :: HEAP_BASE <= a && a + HEADER + headers[a].size <= brk
  {
    forall a <- headers ensures HEAP_BASE <= a && a + HEADER + headers[a].size <= brk {
      HeaderBounds(headers, blocks, brk, lh, a);
    }
  }

  lemma WreckedIsNotServed(brk: nat, headers: map<nat, Header>, bits: seq<bool>, size: nat)
    ensures Wrecks(brk, headers, bits, size) ==> !Served(brk, headers, bits, size)
  {
    hide NoFreeBlock, Overreaches, UsedRun, NoClearRun;
  }

  lemma NothingAsked(brk: nat, lh: nat, headers: map<nat, Header>, bits: seq<bool>)
    ensures MallocOutcome(brk, lh, headers, bits, 0, Returned(0), brk, lh, headers)
    ensures !Served(brk, headers, bits, 0) && !Wrecks(brk, headers, bits, 0)
  {
  }

  lemma MallocGrew(
    brk: nat, lh: nat, headers: map<nat, Header>, bits: seq<bool>, size: nat,
    r: Result<nat>, brk': nat, lh': nat, headers': map<nat, Header>)
    requires 0 < size < TWO32 && forall a <- headers :: !(headers[a].free && headers[a].size >= Align8(size))
    requires GrowOutcome(brk, lh, headers, bits, Align8(size), r, brk', lh', headers')
    ensures NoFreeBlock(headers, Align8(size))
    ensures MallocOutcome(
      brk, lh, headers, bits, size, if r.Returned? && r.value != 0 then Returned(r.value + HEADER) else r, brk', lh', headers')
    ensures Wrecks(brk, headers, bits, size) <==> Overruns(brk, bits, Align8(size))
  {
    hide GrowOutcome;
  }

  lemma MallocReused(brk: nat, lh: nat, headers: map<nat, Header>, bits: seq<bool>, size: nat, at: nat)
    requires 0 < size < TWO32 && at in headers && headers[at].free && headers[at].size >= Align8(size)
    requires forall a <- headers :: a > at ==> !(headers[a].free && headers[a].size >= Align8(size))
    ensures MallocOutcome(brk, lh, headers, bits, size, Returned(at + HEADER), brk, lh, headers[at := headers[at].(free := false)])
    ensures !Wrecks(brk, headers, bits, size)
  {
  }

  /** When kmalloc answers a block, that it was free or new, and how long it is. */
  lemma MallocMeaning(
    brk: nat, lh: nat, headers: map<nat, Header>, blocks: seq<nat>, bits: seq<bool>, size: nat,
    r: Result<nat>, brk': nat, lh': nat, headers': map<nat, Header>)
    requires Tiled(headers, blocks, brk, lh) && 0 < size < TWO32
    requires MallocOutcome(brk, lh, headers, bits, size, r, brk', lh', headers')
    ensures r.Returned? && r.value != 0 <==> Served(brk, headers, bits, size)
    ensures r.Returned? && r.value != 0 ==>
      HEAP_BASE + HEADER <= r.value && Allocated(headers, headers', r.value - HEADER)
    ensures r.Returned? && r.value != 0 ==> (headers'[r.value - HEADER].size >= size <==> size <= TWO32 - 16)
  {
    hide Tiled, Overreaches, Refused, UsedRun, NoClearRun, PagesToGet, Align8;
    TiledBreak(headers, blocks, brk, lh);
    if r.Returned? && r.value != 0 {
      BlockIsLongEnough(brk, size, headers'[r.value - HEADER].size);
    }
  }

  /** krealloc has moved a block of `length` bytes: `n` bytes went to `to`, and as many of the block as that arrived. */
  ghost predicate BlockCarried(
    m: Memory, m': Memory, pd: FrameNo, brk: nat, ptr: nat, to: nat, n: nat, length: nat)
  {
    && HeapOnly(m, m', pd, brk) && BytesKept(m, m', pd, brk, to, to + n)
    && ptr + length <= TWO32 && to + n <= TWO32
    && Carried(m, m', pd, ptr, to, if n < length then n else length)
  }

  lemma ArrivesWhole(
    m: Memory, m': Memory, pd: FrameNo, brk: nat, ptr: nat, to: nat, n: nat, length: nat, room: nat)
    requires brk <= HEAP_LIMIT && ptr + n <= brk && to + n <= brk && ptr + length <= brk && n <= room
    requires ptr + length <= to || to + room <= ptr
    requires HeapOnly(m, m', pd, brk) && Copied(m, m', pd, brk, to, ptr, n)
    ensures BlockCarried(m, m', pd, brk, ptr, to, n, length)
  {
    hide HeapOnly, BytesKept;
    DisjointIsCarried(m, m', pd, brk, to, ptr, n, if n < length then n else length);
  }

  /**
   * The bytes of the old block, up to `n` of them, stand at `to`; the other bytes below the old break are as they were, and so
   * are all frames but the heap's and its table.
   */
  ghost predicate BytesMoved(
    m: Memory, m': Memory, pd: FrameNo, brk: nat, ptr: nat, to: nat, n: nat, length: nat)
  {
    && m'[pd] == m[pd] && BytesKept(m, m', pd, brk, to, to + n)
    && ptr + length <= TWO32 && to + (if n < length then n else length) <= TWO32
    && Carried(m, m', pd, ptr, to, if n < length then n else length)
    && forall f: FrameNo :: f == HeapTable(m, pd) || HeapFrame(m', pd, HEAP_LIMIT, f) || m'[f] == m[f]
  }

  lemma IsWanted(headers: map<nat, Header>, ptr: nat, size: nat)
    ensures size != 0 ==> Want(headers, ptr, size) == size
    ensures ptr >= HEADER && ptr - HEADER in headers && size == 0 ==>
      Want(headers, ptr, size) == headers[ptr - HEADER].size
  {
  }

  lemma NothingToMove(m: Memory, m': Memory, pd: FrameNo, brk: nat, headers: map<nat, Header>, to: nat, n: nat)
    requires OnlyTable(m, m', pd, brk) && to - HEADER in headers
    requires forall a <- headers :: a + HEADER + headers[a].size <= HEAP_LIMIT
    ensures BytesMoved(m, m', pd, brk, 0, to, n, 0)
  {
    hide ByteAt, HeapFrame;
  }

  lemma MovedSince(
    m: Memory, m1: Memory, m2: Memory, pd: FrameNo, brk: nat, brk1: nat, ptr: nat, to: nat, n: nat, length: nat)
    requires OnlyTable(m, m1, pd, brk) && BlockCarried(m1, m2, pd, brk1, ptr, to, n, length)
    requires brk <= brk1 <= HEAP_LIMIT && HEAP_BASE <= ptr && ptr + length <= brk
    ensures BytesMoved(m, m2, pd, brk, ptr, to, n, length)
  {
    hide ByteAt, HeapFrame;
    var k := if n < length then n else length;
    forall j: nat | j < k ensures CarriedByte(m, m2, pd, ptr, to, j) {
      assert CarriedByte(m1, m2, pd, ptr, to, j);
    }
    SameHeapFrames(m1, m2, pd, brk1);
    forall f: FrameNo ensures f == HeapTable(m, pd) || HeapFrame(m2, pd, HEAP_LIMIT, f) || m2[f] == m[f] {
      if HeapFrame(m1, pd, brk1, f) { LargerHeap(m2, pd, brk1, f); }
    }
  }

  lemma LargerHeap(m: Memory, pd: FrameNo, brk: nat, f: FrameNo)
    requires HeapFrame(m, pd, brk, f) && brk <= HEAP_LIMIT
    ensures HeapFrame(m, pd, HEAP_LIMIT, f)
  {
  }

  lemma OthersKept(before: map<nat, Header>, after: map<nat, Header>, at: int, other: nat)
    requires Allocated(before, after, at) && other in before && !before[other].free
    ensures other != at && other in after && after[other] == before[other] && at in after
    ensures after[other := before[other].(free := true)][other := before[other]] == after
  {
  }

  /** What the copy of krealloc finds: the block, the break, and so whether it faults. */
  lemma ReallocDecided(
    brk: nat, lh: nat, headers: map<nat, Header>, bits: seq<bool>, ptr: nat, want: nat,
    r: Result<nat>, brk': nat, lh': nat, headers': map<nat, Header>)
    requires HEAP_BASE < brk && want < TWO32 && MallocOutcome(brk, lh, headers, bits, want, r, brk', lh', headers')
    requires brk' <= HEAP_LIMIT && (r.Returned? && r.value != 0 <==> Served(brk, headers, bits, want))
    requires ptr != 0 ==> HEAP_BASE <= ptr <= brk
    ensures Panics(brk, headers, bits, want) ==> r == Halted && ReallocFaults(brk, headers, bits, ptr, want)
    ensures r == Halted && !Wrecks(brk, headers, bits, want) ==> ReallocFaults(brk, headers, bits, ptr, want)
    ensures r.Returned? && r.value != 0 ==>
      (ptr != 0 && ptr + want > brk' <==> ReallocFaults(brk, headers, bits, ptr, want))
    ensures r == Returned(0) ==> !ReallocFaults(brk, headers, bits, ptr, want)
    ensures r == Returned(0) || r == Halted ==> headers' == headers
    ensures brk <= brk' && (r.Returned? && r.value != 0 ==> r.value >= HEADER && r.value - HEADER in headers')
  {
    BreakAfter(brk, lh, headers, bits, want, r, brk', lh', headers');
    if NoFreeBlock(headers, Align8(want)) { hide MallocOutcome, Refused; } else { hide MallocOutcome; }
  }

  /**
   * Sizes above 4 GiB - 8 are rounded to 0, so any free block answers them: right after kmalloc_init, a request of 4 GiB - 1
   * gets the first block, 4084 bytes long.
   */
  lemma WrappedSizeTakesAnyBlock(
    brk: nat, lh: nat, headers: map<nat, Header>, bits: seq<bool>, size: nat,
    r: Result<nat>, brk': nat, lh': nat, headers': map<nat, Header>)
    requires TWO32 - 8 < size < TWO32 && MallocOutcome(brk, lh, headers, bits, size, r, brk', lh', headers')
    ensures r.Returned? && (r.value != 0 <==> exists a <- headers :: headers[a].free)
    ensures headers == ONE_FREE ==>
      r == Returned(HEAP_BASE + HEADER) && headers' == map[HEAP_BASE := Header(false, PAGE_SIZE - HEADER, 0)]
  {
    assert Align8(size) == 0;
    if headers == ONE_FREE {
      assert HEAP_BASE in headers && headers[HEAP_BASE].free;
    }
  }

  /**
   * Right after kmalloc_init: a = kmalloc(5000), b = kmalloc(4000), c = kmalloc(4080), kfree(a), krealloc(c, 8000). The last
   * call reuses the block of a, which is long enough, and faults: c is the newest block, and 8000 bytes from it end past the break.
   */
  lemma ReuseFaults(
    bits0: seq<bool>, a: nat, brk1: nat, lh1: nat, headers1: map<nat, Header>,
    bits1: seq<bool>, b: nat, brk2: nat, lh2: nat, headers2: map<nat, Header>,
    bits2: seq<bool>, c: nat, brk3: nat, lh3: nat, headers3: map<nat, Header>, bits3: seq<bool>)
    requires a != 0 && b != 0 && c != 0
    requires MallocOutcome(HEAP_BASE + PAGE_SIZE, HEAP_BASE, ONE_FREE, bits0, 5000, Returned(a), brk1, lh1, headers1)
    requires MallocOutcome(brk1, lh1, headers1, bits1, 4000, Returned(b), brk2, lh2, headers2)
    requires MallocOutcome(brk2, lh2, headers2, bits2, 4080, Returned(c), brk3, lh3, headers3)
    ensures a >= HEADER && a - HEADER in headers3
    ensures var freed := headers3[a - HEADER := headers3[a - HEADER].(free := true)];
      && Want(freed, c, 8000) == 8000 && Served(brk3, freed, bits3, 8000) && !Panics(brk3, freed, bits3, 8000)
      && ReallocFaults(brk3, freed, bits3, c, 8000)
  {
    FirstGrowth(bits0, a, brk1, lh1, headers1);
    FirstReuse(bits1, b, brk2, lh2, headers2);
    SecondGrowth(bits2, c, brk3, lh3, headers3);
    var at := HEAP_BASE + PAGE_SIZE;
    var freed := headers3[at := headers3[at].(free := true)];
    assert at in freed && freed[at].free && freed[at].size >= Align8(8000);
  }

  const AFTER_A := ONE_FREE[HEAP_BASE + PAGE_SIZE := Header(false, 2 * PAGE_SIZE - HEADER, HEAP_BASE)]
  const AFTER_B := AFTER_A[HEAP_BASE := Header(false, PAGE_SIZE - HEADER, 0)]

  lemma FirstGrowth(bits: seq<bool>, a: nat, brk': nat, lh': nat, headers': map<nat, Header>)
    requires a != 0
    requires MallocOutcome(HEAP_BASE + PAGE_SIZE, HEAP_BASE, ONE_FREE, bits, 5000, Returned(a), brk', lh', headers')
    ensures a == HEAP_BASE + PAGE_SIZE + HEADER && brk' == HEAP_BASE + 3 * PAGE_SIZE && lh' == HEAP_BASE + PAGE_SIZE
    ensures headers' == AFTER_A
  {
    assert Align8(5000) == 5000 && PagesToGet(5000) == 2;
    assert NoFreeBlock(ONE_FREE, 5000);
  }

  lemma FirstReuse(bits: seq<bool>, b: nat, brk': nat, lh': nat, headers': map<nat, Header>)
    requires MallocOutcome(HEAP_BASE + 3 * PAGE_SIZE, HEAP_BASE + PAGE_SIZE, AFTER_A, bits, 4000, Returned(b), brk', lh', headers')
    ensures brk' == HEAP_BASE + 3 * PAGE_SIZE && lh' == HEAP_BASE + PAGE_SIZE && headers' == AFTER_B
  {
    assert Align8(4000) == 4000;
    assert HEAP_BASE in AFTER_A && AFTER_A[HEAP_BASE].free && AFTER_A[HEAP_BASE].size >= 4000;
  }

  lemma SecondGrowth(bits: seq<bool>, c: nat, brk': nat, lh': nat, headers': map<nat, Header>)
    requires c != 0
    requires MallocOutcome(HEAP_BASE + 3 * PAGE_SIZE, HEAP_BASE + PAGE_SIZE, AFTER_B, bits, 4080, Returned(c), brk', lh', headers')
    ensures c == HEAP_BASE + 3 * PAGE_SIZE + HEADER && brk' == HEAP_BASE + 4 * PAGE_SIZE
    ensures headers' == AFTER_B[HEAP_BASE + 3 * PAGE_SIZE := Header(false, PAGE_SIZE - HEADER, HEAP_BASE + PAGE_SIZE)]
  {
    assert Align8(4080) == 4080 && PagesToGet(4080) == 1;
    assert NoFreeBlock(AFTER_B, 4080);
  }

  /**
   * Where the break is after kmalloc: moved exactly by a new block, and then past everything krealloc may have to copy.
   */
  lemma BreakAfter(
    brk: nat, lh: nat, headers: map<nat, Header>, bits: seq<bool>, size: nat,
    r: Result<nat>, brk': nat, lh': nat, headers': map<nat, Header>)
    requires 0 < brk && size < TWO32 && MallocOutcome(brk, lh, headers, bits, size, r, brk', lh', headers')
    ensures !Wrecks(brk, headers, bits, size) ==> (r == Halted <==> Panics(brk, headers, bits, size))
    ensures Panics(brk, headers, bits, size) ==> r == Halted
    ensures r.Returned? && r.value != 0 ==>
      if NoFreeBlock(headers, Align8(size)) then brk' > brk && (size <= TWO32 - 16 ==> brk' >= brk + size) else brk' == brk
    ensures r == Returned(0) || r == Halted ==> headers' == headers
  {
    hide UsedRun, NoClearRun;
  }

  /**
   * The heap's bytes below the old break and all frames but the heap's table are as before. (The header of a new block is
   * not part of it.)
   */
  ghost predicate OnlyTable(m: Memory, m': Memory, pd: FrameNo, brk: nat) {
    m'[pd] == m[pd] && TableOnly(m, m', pd) && BytesKept(m, m', pd, brk, 0, 0)
  }

  lemma NothingTouched(m: Memory, pd: FrameNo, brk: nat)
    ensures OnlyTable(m, m, pd, brk)
  {
    hide ByteAt;
  }

  lemma MappingTouchesTable(
    m: Memory, pd: FrameNo, bits: seq<bool>, bits1: seq<bool>, brk: nat, addr: Vaddr, pages: nat, r: Result<bool>,
    m': Memory, bits2: seq<bool>)
    requires Wf(m, pd) && StructureUsed(m, pd, bits) && HEAP_BASE < brk
    requires brk % PAGE_SIZE == 0 && brk + pages * PAGE_SIZE <= HEAP_LIMIT && Backed(m, pd, bits, brk / PAGE_SIZE)
    requires RangeRun(m, pd, bits1, brk, addr, KERNEL_RW, pages, r, m', bits2)
    requires Extended(m, m', pd, brk / PAGE_SIZE, addr / PAGE_SIZE, pages)
    ensures OnlyTable(m, m', pd, brk)
  {
    hide Backed, RangeRun, Extended, Wf, StructureUsed, TablesPresent, TablesOnly, ByteAt, FrameAt;
    HeapTables(m, pd, bits, brk, pages);
    RangeTouchesTables(m, pd, bits1, brk, addr, KERNEL_RW, pages, r, m', bits2);
    OneTable(m, pd, bits1, brk, pages, m', bits2);
    ExtendedBelow(m, m', pd, brk / PAGE_SIZE, addr / PAGE_SIZE, pages);
    GrowthKeepsBytes(m, m', pd, bits, brk);
  }

  lemma ExtendedBelow(m: Memory, m': Memory, pd: FrameNo, first: nat, frame: nat, pages: nat)
    requires Extended(m, m', pd, first, frame, pages) && first <= END_PAGE
    ensures m'[pd] == m[pd] && forall n: nat :: FIRST_PAGE <= n < first ==> FrameAt(m', pd, n) == FrameAt(m, pd, n)
  {
    hide FrameAt, KernelOnly;
  }

  /** All pages of the heap have one table. */
  lemma OneTable(m: Memory, pd: FrameNo, bits: seq<bool>, brk: nat, pages: nat, m': Memory, bits': seq<bool>)
    requires HEAP_BASE <= brk && brk % PAGE_SIZE == 0 && brk + pages * PAGE_SIZE <= HEAP_LIMIT
    requires TablesOnly(m, bits, m', bits', pd, brk, pages)
    ensures TableOnly(m, m', pd)
  {
    forall f: FrameNo | f != HeapTable(m, pd) ensures m'[f] == m[f] {
      if TableOfRange(m, pd, brk, pages, f) {
        var n: nat :| brk / PAGE_SIZE <= n < brk / PAGE_SIZE + pages && n < FRAME_COUNT && f == m[pd][PageNo(n).slot].frame;
        HeapSlot(n);
        assert false;
      }
    }
  }

  /** The pages above the break are unmapped, so the range always maps, and the heap stays backed. */
  lemma MappingSucceeds(
    m: Memory, pd: FrameNo, bits: seq<bool>, bits1: seq<bool>, brk: nat, addr: nat, pages: nat, r: Result<bool>,
    m': Memory, bits2: seq<bool>)
    requires Wf(m, pd) && StructureUsed(m, pd, bits) && |bits| <= FRAME_COUNT
    requires brk % PAGE_SIZE == 0 && HEAP_BASE <= brk && brk + pages * PAGE_SIZE <= HEAP_LIMIT && addr % PAGE_SIZE == 0
    requires addr < TWO32
    requires Backed(m, pd, bits, brk / PAGE_SIZE)
    requires ClearRun(bits, addr / PAGE_SIZE, pages) && bits1 == SetRun(bits, addr / PAGE_SIZE, pages, true)
    requires TakenVisible(m, pd, bits1, bits2) ==> RangeOutcome(m, pd, bits1, brk, addr, KERNEL_RW, pages, r, m', bits2)
    requires TablesPresent(m, pd, brk, pages) ==> bits2 == bits1 && m'[pd] == m[pd]
    ensures r == Returned(true) && bits2 == bits1
    ensures Backed(m', pd, bits2, brk / PAGE_SIZE + pages) && Wf(m', pd) && StructureUsed(m', pd, bits2)
    ensures Extended(m, m', pd, brk / PAGE_SIZE, addr / PAGE_SIZE, pages)
  {
    HeapTables(m, pd, bits, brk, pages);
    NothingIsVisible(m, pd, bits1);
    RangeCannotFail(m, pd, bits, bits1, brk, addr, pages, r, m');
    ExtendedByRange(m, pd, bits, bits1, brk, addr, pages, m');
    StillBacked(m, pd, bits, bits1, brk / PAGE_SIZE, addr / PAGE_SIZE, pages, m');
  }

  lemma HeapTables(m: Memory, pd: FrameNo, bits: seq<bool>, brk: nat, pages: nat)
    requires brk % PAGE_SIZE == 0 && HEAP_BASE <= brk && brk + pages * PAGE_SIZE <= HEAP_LIMIT
    requires Backed(m, pd, bits, brk / PAGE_SIZE)
    ensures TablesPresent(m, pd, brk, pages)
  {
    forall n: nat | brk / PAGE_SIZE <= n < brk / PAGE_SIZE + pages && n < FRAME_COUNT ensures m[pd][PageNo(n).slot].present {
      HeapSlot(n);
    }
  }

  lemma RangeCannotFail(
    m: Memory, pd: FrameNo, bits: seq<bool>, bits1: seq<bool>, brk: nat, addr: nat, pages: nat, r: Result<bool>,
    m': Memory)
    requires brk % PAGE_SIZE == 0 && HEAP_BASE <= brk && brk + pages * PAGE_SIZE <= HEAP_LIMIT && addr % PAGE_SIZE == 0
    requires addr < TWO32
    requires Backed(m, pd, bits, brk / PAGE_SIZE)
    requires RangeOutcome(m, pd, bits1, brk, addr, KERNEL_RW, pages, r, m', bits1)
    ensures r == Returned(true)
  {
    forall n: nat | n < pages
      ensures !StoppedAt(m, m', pd, bits1, bits1, brk / PAGE_SIZE, n, addr / PAGE_SIZE, KERNEL_RW)
    {
      NeverStopped(m, pd, bits, bits1, m', brk / PAGE_SIZE, n, addr / PAGE_SIZE);
    }
  }

  lemma NeverStopped(
    m: Memory, pd: FrameNo, bits: seq<bool>, bits1: seq<bool>, m': Memory, first: nat, n: nat, frame: nat)
    requires Backed(m, pd, bits, first) && FIRST_PAGE <= first && first + n < END_PAGE
    ensures !StoppedAt(m, m', pd, bits1, bits1, first, n, frame, KERNEL_RW)
  {
    hide Backed, RangeMapped, Wf, StructureUsed;
    if StoppedAt(m, m', pd, bits1, bits1, first, n, frame, KERNEL_RW) {
      NeitherReason(m, pd, bits, m', first + n, first);
    }
  }

  lemma NeitherReason(m: Memory, pd: FrameNo, bits: seq<bool>, m': Memory, n: nat, endPage: nat)
    requires Backed(m, pd, bits, endPage) && FIRST_PAGE <= endPage <= n < END_PAGE && SlotsKept(m, m', pd, KERNEL_RW)
    ensures Lookup(m, pd, PageNo(n)).None? && m'[pd][PageNo(n).slot].present
  {
    HeapSlot(n);
    assert FrameAt(m, pd, n) == None;
  }

  /** Pages first, first + 1, ... of the heap's slot now show frame, frame + 1, ...; its other pages are as before. */
  ghost predicate Extended(m: Memory, m': Memory, pd: FrameNo, first: nat, frame: nat, pages: nat) {
    && m'[pd] == m[pd]
    && (forall n: nat :: FIRST_PAGE <= n < END_PAGE ==>
         FrameAt(m', pd, n) == if first <= n < first + pages then Some((frame + (n - first)) % FRAME_COUNT) else FrameAt(m, pd, n))
    && forall n: nat :: FIRST_PAGE <= n < END_PAGE ==>
         (first <= n < first + pages || KernelOnly(m, pd, n) ==> KernelOnly(m', pd, n))
  }

  lemma ExtendedByRange(
    m: Memory, pd: FrameNo, bits: seq<bool>, bits1: seq<bool>, brk: nat, addr: nat, pages: nat, m': Memory)
    requires brk % PAGE_SIZE == 0 && HEAP_BASE <= brk && brk + pages * PAGE_SIZE <= HEAP_LIMIT && addr < TWO32
    requires addr % PAGE_SIZE == 0
    requires RangeOutcome(m, pd, bits1, brk, addr, KERNEL_RW, pages, Returned(true), m', bits1) && m'[pd] == m[pd]
    requires m[pd][PageNo(FIRST_PAGE).slot].present
    ensures Extended(m, m', pd, brk / PAGE_SIZE, addr / PAGE_SIZE, pages)
    ensures Wf(m', pd) && StructureUsed(m', pd, bits1)
  {
    hide Wf, StructureUsed, SlotsKept, RangeMapped, FrameAt, KernelOnly;
    var first, frame := brk / PAGE_SIZE, addr / PAGE_SIZE;
    forall n: nat | FIRST_PAGE <= n < END_PAGE
      ensures FrameAt(m', pd, n)
           == if first <= n < first + pages then Some((frame + (n - first)) % FRAME_COUNT) else FrameAt(m, pd, n)
      ensures first <= n < first + pages || KernelOnly(m, pd, n) ==> KernelOnly(m', pd, n)
    {
      PageOfRange(m, m', pd, first, pages, frame, n);
    }
  }

  lemma PageOfRange(m: Memory, m': Memory, pd: FrameNo, first: nat, pages: nat, frame: nat, n: nat)
    requires RangeMapped(m, m', pd, first, pages, frame, KERNEL_RW) && FIRST_PAGE <= n < END_PAGE && m'[pd] == m[pd]
    requires m[pd][PageNo(FIRST_PAGE).slot].present
    ensures FrameAt(m', pd, n)
         == if first <= n < first + pages then Some((frame + (n - first)) % FRAME_COUNT) else FrameAt(m, pd, n)
    ensures first <= n < first + pages || KernelOnly(m, pd, n) ==> KernelOnly(m', pd, n)
  {
    HeapSlot(n);
  }

  lemma HeapSlot(n: nat)
    requires FIRST_PAGE <= n < END_PAGE
    ensures n < FRAME_COUNT && PageNo(n).slot == PageNo(FIRST_PAGE).slot < RECURSIVE && NumberOf(PageNo(n)) == n
  {
  }

  lemma PagesStayApart(m: Memory, pd: FrameNo, bits: seq<bool>, first: nat, frame: nat, pages: nat, m': Memory)
    requires StructureUsed(m, pd, bits) && |bits| <= FRAME_COUNT && FIRST_PAGE <= first && first + pages <= END_PAGE
    requires Backed(m, pd, bits, first) && ClearRun(bits, frame, pages) && Extended(m, m', pd, first, frame, pages)
    ensures forall n: nat, n': nat :: FIRST_PAGE <= n < n' < first + pages ==> FrameAt(m', pd, n) != FrameAt(m', pd, n')
  {
    hide Backed, Extended, ClearRun, StructureUsed, FrameAt;
    forall n: nat, n': nat | FIRST_PAGE <= n < n' < first + pages
      ensures FrameAt(m', pd, n) != FrameAt(m', pd, n')
    {
      if n < first {
        OldPage(m, pd, bits, first, frame, pages, m', n);
        if n' < first {
          OldPage(m, pd, bits, first, frame, pages, m', n');
          OldPagesDiffer(m, pd, bits, first, n, n');
        } else {
          NewPage(m, pd, bits, first, frame, pages, m', n');
        }
      } else {
        NewPage(m, pd, bits, first, frame, pages, m', n);
        NewPage(m, pd, bits, first, frame, pages, m', n');
      }
    }
  }

  lemma OldPagesDiffer(m: Memory, pd: FrameNo, bits: seq<bool>, first: nat, n: nat, n': nat)
    requires Backed(m, pd, bits, first) && FIRST_PAGE <= n < n' < first
    ensures FrameAt(m, pd, n) != FrameAt(m, pd, n')
  {
    hide FrameAt, OwnFrame;
  }

  /** A page below the range shows what it showed: a used frame. */
  lemma OldPage(m: Memory, pd: FrameNo, bits: seq<bool>, first: nat, frame: nat, pages: nat, m': Memory, n: nat)
    requires Backed(m, pd, bits, first) && Extended(m, m', pd, first, frame, pages)
    requires FIRST_PAGE <= n < first && first + pages <= END_PAGE
    ensures FrameAt(m', pd, n) == FrameAt(m, pd, n) && FrameAt(m, pd, n).Some?
    ensures FrameAt(m, pd, n).value < |bits| && bits[FrameAt(m, pd, n).value]
  {
    hide FrameAt, Structure;
    assert OwnFrame(m, pd, bits, FrameAt(m, pd, n).value);
  }

  /** A page of the range shows its own frame of the run, which was free. */
  lemma NewPage(m: Memory, pd: FrameNo, bits: seq<bool>, first: nat, frame: nat, pages: nat, m': Memory, n: nat)
    requires |bits| <= FRAME_COUNT && ClearRun(bits, frame, pages) && Extended(m, m', pd, first, frame, pages)
    requires FIRST_PAGE <= first <= n < first + pages <= END_PAGE
    ensures FrameAt(m', pd, n) == Some(frame + (n - first)) && frame + (n - first) < |bits|
    ensures !bits[frame + (n - first)]
  {
    hide FrameAt;
  }

  lemma StillBacked(
    m: Memory, pd: FrameNo, bits: seq<bool>, bits1: seq<bool>, first: nat, frame: nat, pages: nat, m': Memory)
    requires StructureUsed(m, pd, bits) && |bits| <= FRAME_COUNT && FIRST_PAGE <= first && first + pages <= END_PAGE
    requires Backed(m, pd, bits, first) && ClearRun(bits, frame, pages) && bits1 == SetRun(bits, frame, pages, true)
    requires Extended(m, m', pd, first, frame, pages)
    ensures Backed(m', pd, bits1, first + pages)
  {
    SameDirectory(m, m', pd);
    PagesStayApart(m, pd, bits, first, frame, pages, m');
    forall n: nat | FIRST_PAGE <= n < first + pages
      ensures FrameAt(m', pd, n).Some? && OwnFrame(m', pd, bits1, FrameAt(m', pd, n).value)
    {
      if n >= first { assert !bits[frame + (n - first)]; }
    }
  }

  /** There is a page for the heap and, unless its slot has a table, another one for the table. */
  ghost predicate CanStart(m: Memory, pd: FrameNo, bits: seq<bool>) {
    exists a: nat ::
      && LeftmostRun(bits, a, 1) && a < |bits|
      && (m[pd][PageNo(FIRST_PAGE).slot].present || !UsedRun(bits[a := true], 0, |bits|))
  }

  lemma NoPageNoStart(m: Memory, pd: FrameNo, bits: seq<bool>)
    requires |bits| > 0 && bits[0]
    ensures UsedRun(bits, 0, |bits|) ==> !CanStart(m, pd, bits)
  {
    SinglePage(bits);
  }

  lemma StartDecided(
    m: Memory, pd: FrameNo, bits: seq<bool>, bits1: seq<bool>, addr: nat, r: Result<bool>, m': Memory, bits2: seq<bool>)
    requires Wf(m, pd) && StructureUsed(m, pd, bits1) && |bits| <= FRAME_COUNT && NothingMapped(m, pd)
    requires addr < TWO32 && addr % PAGE_SIZE == 0 && addr / PAGE_SIZE < |bits|
    requires LeftmostRun(bits, addr / PAGE_SIZE, 1)
    requires bits1 == bits[addr / PAGE_SIZE := true] && TableVisible(m, pd, bits1, PageNo(FIRST_PAGE).slot)
    requires MapOutcome(m, pd, bits1, HEAP_BASE, addr, KERNEL_RW, r, m', bits2)
    ensures r.Returned? && (r.value <==> CanStart(m, pd, bits))
  {
    assert PageOf(HEAP_BASE) == PageNo(FIRST_PAGE);
    HeapSlot(FIRST_PAGE);
    assert FrameAt(m, pd, FIRST_PAGE) == None;
    MapMeaning(m, pd, bits1, HEAP_BASE, addr, KERNEL_RW, r, m', bits2);
    LeftmostIsUnique(bits, addr / PAGE_SIZE);
  }

  /**
   * The frame of the first heap page is taken before the table the page may need, hence the condition on the second
   * free page.
   */
  lemma FirstPageBacked(
    m: Memory, pd: FrameNo, bits: seq<bool>, bits1: seq<bool>, addr: nat, r: Result<bool>, m': Memory, bits2: seq<bool>)
    requires Wf(m, pd) && StructureUsed(m, pd, bits) && |bits| <= FRAME_COUNT
    requires addr < TWO32 && addr % PAGE_SIZE == 0 && addr / PAGE_SIZE < |bits| && !bits[addr / PAGE_SIZE]
    requires bits1 == bits[addr / PAGE_SIZE := true]
    requires TableVisible(m, pd, bits1, PageNo(FIRST_PAGE).slot)
    requires NothingMapped(m, pd)
    requires r == Returned(true) && MapOutcome(m, pd, bits1, HEAP_BASE, addr, KERNEL_RW, r, m', bits2)
    requires Grown(bits1, bits2)
    ensures Backed(m', pd, bits2, FIRST_PAGE + 1) && Wf(m', pd) && StructureUsed(m', pd, bits2) && SlotKept(m, m', pd)
  {
    assert PageOf(HEAP_BASE) == PageNo(FIRST_PAGE);
    HeapSlot(FIRST_PAGE);
    MapMeaning(m, pd, bits1, HEAP_BASE, addr, KERNEL_RW, r, m', bits2);
    OnlyFirstPage(m, pd, addr, m');
    var f := addr / PAGE_SIZE;
    assert !Structure(m, pd, f);
    FirstPageApart(m, pd, bits, bits1, addr, r, m', bits2);
  }

  lemma OnlyFirstPage(m: Memory, pd: FrameNo, addr: nat, m': Memory)
    requires addr < TWO32 && NothingMapped(m, pd)
    requires ViewUpdated(
      m, m', pd, PageNo(FIRST_PAGE), Some(Granted(m, pd, PageNo(FIRST_PAGE).slot, addr / PAGE_SIZE, KERNEL_RW)))
    ensures forall n: nat :: FIRST_PAGE <= n < END_PAGE ==>
      FrameAt(m', pd, n) == if n == FIRST_PAGE then Some(addr / PAGE_SIZE) else None
  {
    HeapSlot(FIRST_PAGE);
    forall n: nat | FIRST_PAGE <= n < END_PAGE
      ensures FrameAt(m', pd, n) == if n == FIRST_PAGE then Some(addr / PAGE_SIZE) else None
    {
      HeapSlot(n);
      assert FrameAt(m, pd, n) == None;
    }
  }

  /** Its frame is no part of the structure, also when a table has been added. */
  lemma FirstPageApart(
    m: Memory, pd: FrameNo, bits: seq<bool>, bits1: seq<bool>, addr: nat, r: Result<bool>, m': Memory, bits2: seq<bool>)
    requires Wf(m, pd) && StructureUsed(m, pd, bits) && StructureUsed(m, pd, bits1) && |bits| <= FRAME_COUNT
    requires addr < TWO32 && addr % PAGE_SIZE == 0 && addr / PAGE_SIZE < |bits| && !bits[addr / PAGE_SIZE]
    requires bits1 == bits[addr / PAGE_SIZE := true]
    requires TableVisible(m, pd, bits1, PageNo(FIRST_PAGE).slot)
    requires NothingMapped(m, pd)
    requires r == Returned(true) && MapOutcome(m, pd, bits1, HEAP_BASE, addr, KERNEL_RW, r, m', bits2)
    ensures !Structure(m', pd, addr / PAGE_SIZE) && m'[pd][PageNo(FIRST_PAGE).slot].present
  {
    assert PageOf(HEAP_BASE) == PageNo(FIRST_PAGE);
    HeapSlot(FIRST_PAGE);
    assert FrameAt(m, pd, FIRST_PAGE) == None;
    MapMeaning(m, pd, bits1, HEAP_BASE, addr, KERNEL_RW, r, m', bits2);
    var f := addr / PAGE_SIZE;
    assert !Structure(m, pd, f);
    if m[pd][PageNo(FIRST_PAGE).slot].present {
      SameDirectory(m, m', pd);
    } else {
      var t := FilledNewTable(m, pd, bits1, HEAP_BASE, addr, KERNEL_RW, r, m', bits2);
      forall s: Index | s < RECURSIVE && m'[pd][s].present ensures m'[pd][s].frame != f {
        assert s == PageNo(FIRST_PAGE).slot || m'[pd][s] == m[pd][s];
      }
    }
  }
}
