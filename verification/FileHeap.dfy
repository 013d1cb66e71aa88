/** tmpfs_write.c on top of kmalloc.c and krealloc.c: when a file can grow, and that files keep blocks of their own. */
module FileHeap {
  import opened Base
  import opened PageBits
  import opened Paging
  import opened Vmm
  import opened HeapLayout
  import opened HeapMemory
  import opened Heap
  import opened TmpfsEntry

  /** The file's block is one the heap holds as used, of that length. */
  ghost predicate Owns(headers: map<nat, Header>, e: Entry)
    reads e`dataPtr, e`block
  {
    e.dataPtr != 0 ==>
      && HEADER <= e.dataPtr && e.dataPtr - HEADER in headers
      && !headers[e.dataPtr - HEADER].free && headers[e.dataPtr - HEADER].size == |e.block|
  }

  /** Every file has a block of its own, and no two have the same. */
  ghost predicate AllOwn(headers: map<nat, Header>, files: set<Entry>)
    reads files
  {
    && (forall e <- files :: e.FileOk() && Owns(headers, e))
    && (forall e <- files, f <- files :: e != f && e.dataPtr != 0 ==> e.dataPtr != f.dataPtr)
  }

  /** The `n` bytes at `ptr`, as the kernel reads them. */
  function BytesAt(m: Memory, pd: FrameNo, ptr: nat, n: nat): (b: Bytes)
    requires ptr + n <= TWO32
    ensures |b| == n
  {
    seq<Byte>(n, i requires 0 <= i < n => Read(ByteAt(m, pd, ptr + i)))
  }

  lemma ByteOf(m: Memory, pd: FrameNo, ptr: nat, n: nat, i: nat)
    requires ptr + n <= TWO32 && i < n
    ensures BytesAt(m, pd, ptr, n)[i] == Read(ByteAt(m, pd, ptr + i))
  {
    hide ByteAt;
  }

  function Read(o: Option<Byte>): Byte {
    match o
    case None => 0
    case Some(b) => b
  }

  /** The file's bytes are those that stand in the heap at its pointer. */
  ghost predicate Stands(m: Memory, pd: FrameNo, e: Entry)
    reads e`dataPtr, e`block
  {
    e.dataPtr + |e.block| <= TWO32 && e.block == BytesAt(m, pd, e.dataPtr, |e.block|)
  }

  lemma SameBytes(m: Memory, m': Memory, pd: FrameNo, ptr: nat, n: nat)
    requires ptr + n <= TWO32 && forall va: Vaddr :: ptr <= va < ptr + n ==> ByteAt(m', pd, va) == ByteAt(m, pd, va)
    ensures BytesAt(m', pd, ptr, n) == BytesAt(m, pd, ptr, n)
  {
    hide ByteAt;
  }

  /** What krealloc moved is what stood there. */
  lemma MovedCarries(m: Memory, m': Memory, pd: FrameNo, from: nat, to: nat, n: nat, length: nat, room: nat)
    requires from + length <= TWO32 && to + room <= TWO32 && to + (if n < length then n else length) <= TWO32
    requires Carried(m, m', pd, from, to, if n < length then n else length)
    ensures Carries(BytesAt(m, pd, from, length), BytesAt(m', pd, to, room), n)
  {
    hide ByteAt;
    forall i | 0 <= i < length && i < room && i < n
      ensures BytesAt(m', pd, to, room)[i] == BytesAt(m, pd, from, length)[i]
    {
      assert CarriedByte(m, m', pd, from, to, i);
    }
  }

  /** The bytes written to memory are the bytes of the block, spliced. */
  lemma PutIsOverwrite(m: Memory, m': Memory, pd: FrameNo, ptr: nat, before: Bytes, offset: nat, data: Bytes, brk: nat)
    requires HEAP_BASE <= ptr && ptr + |before| <= brk <= TWO32 && offset + |data| <= |before|
    requires before == BytesAt(m, pd, ptr, |before|) && BytesKept(m, m', pd, brk, ptr + offset, ptr + offset + |data|)
    requires BytesAt(m', pd, ptr + offset, |data|) == data
    ensures Overwrite(before, offset, data) == BytesAt(m', pd, ptr, |before|)
  {
    hide ByteAt;
    var after := Overwrite(before, offset, data);
    forall i | 0 <= i < |before| ensures after[i] == BytesAt(m', pd, ptr, |before|)[i] {
      if offset <= i < offset + |data| {
        assert BytesAt(m', pd, ptr + offset, |data|)[i - offset] == BytesAt(m', pd, ptr, |before|)[i];
      } else {
        assert ByteAt(m', pd, ptr + i) == ByteAt(m, pd, ptr + i);
      }
    }
  }

  /** krealloc serves the growth of a file to `n` bytes. */
  ghost predicate CanGrow(brk: nat, headers: map<nat, Header>, bits: seq<bool>, ptr: nat, n: nat) {
    Served(brk, headers, bits, n) && !ReallocFaults(brk, headers, bits, ptr, n) && n <= TWO32 - 16
  }

  /** The growth faults: in krealloc, or in the copy of the data that follows, since the block is too short. */
  ghost predicate GrowthFaults(brk: nat, headers: map<nat, Header>, bits: seq<bool>, ptr: nat, n: nat) {
    ReallocFaults(brk, headers, bits, ptr, n) || (Served(brk, headers, bits, n) && n > TWO32 - 16)
  }

  // ---- kmemcpy into the heap ----

  lemma OneByteMore(
    m: Memory, m1: Memory, m2: Memory, pd: FrameNo, bits: seq<bool>, brk: nat, va: nat, data: Bytes, i: nat)
    requires Sound(m1, pd, bits, brk) && brk <= HEAP_LIMIT && HEAP_BASE <= va && va + |data| <= brk && i < |data|
    requires BytesKept(m, m1, pd, brk, va, va + i) && BytesAt(m1, pd, va, i) == data[..i]
    requires Lookup(m1, pd, PageOf(va + i)).Some? && m2 == ByteStored(m1, pd, va + i, data[i])
    ensures Sound(m2, pd, bits, brk)
    ensures BytesKept(m, m2, pd, brk, va, va + (i + 1)) && BytesAt(m2, pd, va, i + 1) == data[..i + 1]
  {
    hide Sound, ByteAt, ByteStored, HeapFrame, Lookup;
    StoreKeepsHeap(m1, pd, bits, brk, va + i, data[i]);
    forall vb: Vaddr | HEAP_BASE <= vb < brk && vb != va + i ensures ByteAt(m2, pd, vb) == ByteAt(m1, pd, vb) {
      OtherByteKept(m1, pd, bits, brk, va + i, data[i], vb);
    }
    SameBytes(m1, m2, pd, va, i);
    ByteOf(m2, pd, va, i + 1, i);
    assert BytesAt(m2, pd, va, i + 1) == BytesAt(m2, pd, va, i) + [data[i]];
    assert data[..i + 1] == data[..i] + [data[i]];
  }

  lemma NothingPut(m: Memory, pd: FrameNo, brk: nat, va: nat, data: Bytes)
    requires va <= TWO32
    ensures BytesKept(m, m, pd, brk, va, va + 0) && BytesAt(m, pd, va, 0) == data[..0]
  {
    hide ByteAt;
  }

  /** kmemcpy of `data` into a block. */
  method PutBytes(heap: KernelHeap, va: nat, data: Bytes)
    requires heap.Valid() && HEAP_BASE <= va && va + |data| <= heap.brk
    modifies heap.k`mem
    ensures heap.Valid() && va + |data| <= HEAP_LIMIT && BytesAt(heap.k.mem, heap.k.cr3, va, |data|) == data
    ensures BytesKept(old(heap.k.mem), heap.k.mem, heap.k.cr3, heap.brk, va, va + |data|)
  {
    hide Tiled, Backed, Sound, Bits, Wf, SelfMapped, StructureUsed, BytesAt, BytesKept, Lookup, ByteStored;
    heap.ValidIsSound();
    ghost var m, pd := heap.k.mem, heap.k.cr3;
    NothingPut(m, pd, heap.brk, va, data);
    var i := 0;
    while i < |data|
      invariant 0 <= i <= |data| && heap.Valid()
      invariant BytesKept(m, heap.k.mem, pd, heap.brk, va, va + i) && BytesAt(heap.k.mem, pd, va, i) == data[..i]
    {
      heap.ValidIsSound();
      ghost var m1 := heap.k.mem;
      MappedByte(m1, pd, heap.k.pmm.Used(), heap.brk, va + i);
      var stored := heap.StoreByte(va + i, data[i]);
      OneByteMore(m, m1, heap.k.mem, pd, heap.k.pmm.Used(), heap.brk, va, data, i);
      heap.SoundIsValid();
      i := i + 1;
    }
    assert data[..|data|] == data;
  }

  /** The part of ktmpfs_write that asks for room. */
  method Room(heap: KernelHeap, e: Entry, newSize: nat) returns (grow: Growth)
    requires heap.Valid() && Owns(heap.headers, e) && e.dataPtr < TWO32 && 0 < newSize < TWO32 && e.FileOk()
    requires Stands(heap.k.mem, heap.k.cr3, e)
    modifies heap`brk, heap`lh, heap`headers, heap`blocks, heap.k`mem, heap.k.pmm`freePages, heap.k.pmm.bitmap
    ensures heap.k.Ready() && Tiled(heap.headers, heap.blocks, heap.brk, heap.lh)
    ensures old(!Wrecks(heap.brk, heap.headers, heap.k.pmm.Used(), newSize)) ==> heap.Valid()
    ensures old(ReallocFaults(heap.brk, heap.headers, heap.k.pmm.Used(), e.dataPtr, newSize)) ==> grow.Faulted?
    ensures old(!Wrecks(heap.brk, heap.headers, heap.k.pmm.Used(), newSize)) ==>
      (grow.Faulted? <==> old(ReallocFaults(heap.brk, heap.headers, heap.k.pmm.Used(), e.dataPtr, newSize)))
    ensures grow.Moved? <==>
      old(Served(heap.brk, heap.headers, heap.k.pmm.Used(), newSize)
          && !ReallocFaults(heap.brk, heap.headers, heap.k.pmm.Used(), e.dataPtr, newSize))
    ensures grow.Moved? ==>
      grow.ptr != 0 && |grow.bytes| < TWO32 && (|grow.bytes| >= newSize <==> newSize <= TWO32 - 16)
    ensures grow.Moved? ==> BlockMoved(old(heap.headers), heap.headers, e.dataPtr, grow.ptr, |grow.bytes|)
    ensures old(heap.brk) <= heap.brk
    ensures grow.Moved? ==>
      && heap.Valid() && HEAP_BASE <= grow.ptr && grow.ptr + |grow.bytes| <= heap.brk <= HEAP_LIMIT
      && grow.bytes == BytesAt(heap.k.mem, heap.k.cr3, grow.ptr, |grow.bytes|) && Carries(e.block, grow.bytes, newSize)
    ensures grow.Moved? && newSize <= |grow.bytes| ==>
      BytesKept(old(heap.k.mem), heap.k.mem, heap.k.cr3, old(heap.brk), grow.ptr, grow.ptr + |grow.bytes|)
    ensures grow.Refused? ==> BlockLost(old(heap.headers), heap.headers, e.dataPtr)
    ensures grow.Refused? && old(!Wrecks(heap.brk, heap.headers, heap.k.pmm.Used(), newSize)) ==>
      BytesKept(old(heap.k.mem), heap.k.mem, heap.k.cr3, old(heap.brk), 0, 0)
  {
    hide Tiled, Backed, Served, ReallocFaults, Wrecks, Allocated, BytesAt, BytesKept, Carried, Lost, Wreckage;
    hide Bits, Wf, SelfMapped, StructureUsed;
    WreckedIsNotServed(heap.brk, heap.headers, heap.k.pmm.Used(), newSize);
    var r := heap.Realloc(e.dataPtr, newSize);
    if r.Halted? { return Faulted; }
    if r.value == 0 { return Refused; }
    TiledBreak(heap.headers, heap.blocks, heap.brk, heap.lh);
    MovedBy(old(heap.headers), heap.headers, e.dataPtr, r.value);
    var length := heap.headers[r.value - HEADER].size;
    grow := Moved(r.value, BytesAt(heap.k.mem, heap.k.cr3, r.value, length));
    MovedCarries(old(heap.k.mem), heap.k.mem, heap.k.cr3, e.dataPtr, r.value, newSize, |e.block|, length);
    KeptWider(old(heap.k.mem), heap.k.mem, heap.k.cr3, old(heap.brk), r.value, r.value + newSize, r.value + length);
  }

  /**
   * The new block is in use, of that length, and was no other file's; the old one is free; other blocks in use stay.
   */
  ghost predicate BlockMoved(before: map<nat, Header>, after: map<nat, Header>, from: nat, to: nat, length: nat) {
    && HEADER <= to && to - HEADER in after && !after[to - HEADER].free && after[to - HEADER].size == length
    && (to - HEADER in before ==> before[to - HEADER].free)
    && forall a <- before :: !before[a].free && a + HEADER != from ==> a in after && after[a] == before[a]
  }

  /** krealloc frees the old block even when it has no new one. */
  ghost predicate BlockLost(before: map<nat, Header>, after: map<nat, Header>, from: nat) {
    if from < HEADER || from - HEADER !in before then after == before
    else after == before[from - HEADER := before[from - HEADER].(free := true)]
  }

  lemma MovedBy(before: map<nat, Header>, after: map<nat, Header>, from: nat, to: nat)
    requires HEADER <= to
    requires (from != 0 ==> HEADER <= from && from - HEADER in before && from - HEADER in after && !before[from - HEADER].free)
    requires Allocated(before, if from == 0 then after else after[from - HEADER := before[from - HEADER]], to - HEADER)
    requires from != 0 ==> to != from
    ensures to - HEADER in after && BlockMoved(before, after, from, to, after[to - HEADER].size)
  {
  }

  /** The pointer, unless it is NULL, points to a block that is free. */
  ghost predicate IsDangling(headers: map<nat, Header>, ptr: nat) {
    ptr != 0 ==> HEADER <= ptr && ptr - HEADER in headers && headers[ptr - HEADER].free
  }

  /** The block of a file lies below the break. */
  lemma BlockInHeap(heap: KernelHeap, f: Entry)
    requires heap.Valid() && f.FileOk() && Owns(heap.headers, f)
    ensures heap.brk <= HEAP_LIMIT && f.dataPtr < TWO32
    ensures f.block != [] ==> HEAP_BASE <= f.dataPtr && f.dataPtr + |f.block| <= heap.brk
  {
    hide Tiled, Backed, Bits, Wf, SelfMapped, StructureUsed;
    BreakAtMost(heap.headers, heap.blocks, heap.brk, heap.lh);
    if f.dataPtr != 0 { HeaderBounds(heap.headers, heap.blocks, heap.brk, heap.lh, f.dataPtr - HEADER); }
  }

  lemma BreakAtMost(headers: map<nat, Header>, blocks: seq<nat>, brk: nat, lh: nat)
    requires Tiled(headers, blocks, brk, lh)
    ensures brk <= HEAP_LIMIT
  {
  }

  /** kmemcpy of the data into the file's block. */
  method PutInBlock(
    heap: KernelHeap, e: Entry, offset: nat, data: Bytes, ghost before: Bytes, ghost m0: Memory, ghost brk0: nat)
    requires heap.Valid() && HEAP_BASE <= e.dataPtr && e.dataPtr + |before| <= heap.brk <= HEAP_LIMIT
    requires brk0 <= heap.brk
    requires offset + |data| <= |before| && e.block == Overwrite(before, offset, data)
    requires before == BytesAt(heap.k.mem, heap.k.cr3, e.dataPtr, |before|)
    requires BytesKept(m0, heap.k.mem, heap.k.cr3, brk0, e.dataPtr, e.dataPtr + |before|)
    modifies heap.k`mem
    ensures heap.Valid() && Stands(heap.k.mem, heap.k.cr3, e)
    ensures BytesKept(m0, heap.k.mem, heap.k.cr3, brk0, e.dataPtr, e.dataPtr + |e.block|)
  {
    hide Tiled, Backed, Bits, Wf, SelfMapped, StructureUsed, BytesAt, BytesKept;
    ghost var mem := heap.k.mem;
    PutBytes(heap, e.dataPtr + offset, data);
    PutIsOverwrite(mem, heap.k.mem, heap.k.cr3, e.dataPtr, before, offset, data, heap.brk);
    KeptTwice(
      m0, mem, heap.k.mem, heap.k.cr3, brk0, heap.brk, e.dataPtr, e.dataPtr + |before|,
      e.dataPtr + offset, e.dataPtr + offset + |data|);
  }

  lemma KeptTwice(
    m: Memory, m1: Memory, m2: Memory, pd: FrameNo, brk: nat, brk1: nat, lo: nat, hi: nat, lo1: nat, hi1: nat)
    requires BytesKept(m, m1, pd, brk, lo, hi) && BytesKept(m1, m2, pd, brk1, lo1, hi1) && brk <= brk1
    requires lo <= lo1 && hi1 <= hi
    ensures BytesKept(m, m2, pd, brk, lo, hi)
  {
    hide ByteAt;
  }

  lemma KeptWider(m: Memory, m': Memory, pd: FrameNo, brk: nat, lo: nat, hi: nat, hi1: nat)
    requires BytesKept(m, m', pd, brk, lo, hi)
    ensures hi <= hi1 ==> BytesKept(m, m', pd, brk, lo, hi1)
  {
    hide ByteAt;
  }

  lemma NothingKept(m: Memory, pd: FrameNo, brk: nat)
    ensures forall lo: nat, hi: nat :: BytesKept(m, m, pd, brk, lo, hi)
  {
    hide ByteAt;
  }

  /** A write that fits the capacity. */
  method WriteInPlace(heap: KernelHeap, e: Entry, offset: nat, data: Bytes) returns (written: Result<nat>, next: nat)
    requires heap.Valid() && e.FileOk() && Owns(heap.headers, e) && offset + |data| < TWO32
    requires Stands(heap.k.mem, heap.k.cr3, e) && !e.Grows(offset, |data|)
    modifies heap.k`mem, e`dataPtr, e`block, e`size, e`capacity, e`statSize
    ensures heap.Valid() && e.FileOk() && written == Returned(|data|) && next == offset + |data|
    ensures e.dataPtr == old(e.dataPtr) && |e.block| == |old(e.block)|
    ensures if data == [] then unchanged(e) && e.Content() == old(e.Content()) && heap.k.mem == old(heap.k.mem)
            else WrittenBy(old(e.Content()), e.Content(), offset, data)
    ensures Stands(heap.k.mem, heap.k.cr3, e)
    ensures BytesKept(old(heap.k.mem), heap.k.mem, heap.k.cr3, heap.brk, e.dataPtr, e.dataPtr + |e.block|)
  {
    hide Tiled, Backed, WrittenBy, Bits, Wf, SelfMapped, StructureUsed, BytesAt, BytesKept, Overwrite;
    BlockInHeap(heap, e);
    NothingKept(heap.k.mem, heap.k.cr3, heap.brk);
    ghost var before := e.block;
    written, next := e.Write(offset, data, Refused);
    if data != [] { PutInBlock(heap, e, offset, data, before, old(heap.k.mem), heap.brk); }
  }

  /** A write that needs more room. */
  method WriteGrown(heap: KernelHeap, e: Entry, offset: nat, data: Bytes) returns (written: Result<nat>, next: nat)
    requires heap.Valid() && e.FileOk() && Owns(heap.headers, e) && offset + |data| < TWO32
    requires Stands(heap.k.mem, heap.k.cr3, e) && e.Grows(offset, |data|)
    modifies heap`brk, heap`lh, heap`headers, heap`blocks, heap.k`mem, heap.k.pmm`freePages, heap.k.pmm.bitmap
    modifies e`dataPtr, e`block, e`size, e`capacity, e`statSize
    ensures old(GrowthFaults(heap.brk, heap.headers, heap.k.pmm.Used(), e.dataPtr, offset + |data|)) ==>
      written == Halted
    ensures old(!Wrecks(heap.brk, heap.headers, heap.k.pmm.Used(), offset + |data|)) ==>
      (written == Halted <==> old(GrowthFaults(heap.brk, heap.headers, heap.k.pmm.Used(), e.dataPtr, offset + |data|)))
    ensures written == Returned(|data|) <==>
      old(CanGrow(heap.brk, heap.headers, heap.k.pmm.Used(), e.dataPtr, offset + |data|))
    ensures written != Halted ==>
      e.FileOk() && written in {Returned(0), Returned(|data|)} && next == offset + written.value
    ensures written == Returned(|data|) ==>
      && heap.Valid() && WrittenBy(old(e.Content()), e.Content(), offset, data)
      && e.dataPtr != 0 && BlockMoved(old(heap.headers), heap.headers, old(e.dataPtr), e.dataPtr, |e.block|)
      && Stands(heap.k.mem, heap.k.cr3, e)
      && BytesKept(old(heap.k.mem), heap.k.mem, heap.k.cr3, old(heap.brk), e.dataPtr, e.dataPtr + |e.block|)
    ensures written == Returned(0) ==>
      && unchanged(e) && e.Content() == old(e.Content()) && BlockLost(old(heap.headers), heap.headers, e.dataPtr)
    ensures old(!Wrecks(heap.brk, heap.headers, heap.k.pmm.Used(), offset + |data|)) ==> heap.Valid()
    ensures written == Returned(0) && old(!Wrecks(heap.brk, heap.headers, heap.k.pmm.Used(), offset + |data|)) ==>
      BytesKept(old(heap.k.mem), heap.k.mem, heap.k.cr3, old(heap.brk), 0, 0)
  {
    hide Tiled, Backed, Served, ReallocFaults, Wrecks, WrittenBy, BlockMoved, BlockLost, Bits, Wf, SelfMapped;
    hide StructureUsed, BytesAt, BytesKept, Overwrite, Carries, Stands, Owns, Entry.FileOk, Entry.Content;
    BlockInHeap(heap, e);
    var grow := Room(heap, e, offset + |data|);
    ghost var before := if grow.Moved? then grow.bytes else [];
    written, next := e.Write(offset, data, grow);
    if written.Returned? && written.value != 0 {
      PutInBlock(heap, e, offset, data, before, old(heap.k.mem), old(heap.brk));
    }
  }

  /**
   * ktmpfs_write on a regular file that owns its block. It succeeds exactly if the bytes fit the block or krealloc can serve
   * the growth, and faults exactly if the growth does. Afterwards the file's bytes stand in the heap again, and the heap's
   * other bytes are as they were.
   */
  method WriteFile(heap: KernelHeap, e: Entry, offset: nat, data: Bytes) returns (written: Result<nat>, next: nat)
    requires heap.Valid() && e.FileOk() && Owns(heap.headers, e) && offset + |data| < TWO32
    requires Stands(heap.k.mem, heap.k.cr3, e)
    modifies heap`brk, heap`lh, heap`headers, heap`blocks, heap.k`mem, heap.k.pmm`freePages, heap.k.pmm.bitmap
    modifies e`dataPtr, e`block, e`size, e`capacity, e`statSize
    ensures old(e.Grows(offset, |data|)
                && GrowthFaults(heap.brk, heap.headers, heap.k.pmm.Used(), e.dataPtr, offset + |data|)) ==>
      written == Halted
    ensures old(!Wrecks(heap.brk, heap.headers, heap.k.pmm.Used(), offset + |data|)) ==>
      (written == Halted <==>
       old(e.Grows(offset, |data|) && GrowthFaults(heap.brk, heap.headers, heap.k.pmm.Used(), e.dataPtr, offset + |data|)))
    ensures written == Returned(|data|) <==>
      (data == [] || !old(e.Grows(offset, |data|))
       || old(CanGrow(heap.brk, heap.headers, heap.k.pmm.Used(), e.dataPtr, offset + |data|)))
    ensures written != Halted ==>
      e.FileOk() && written in {Returned(0), Returned(|data|)} && next == offset + written.value
    ensures written == Returned(|data|) && data != [] ==> WrittenBy(old(e.Content()), e.Content(), offset, data)
    ensures written == Returned(0) ==> unchanged(e) && e.Content() == old(e.Content())
    ensures written != Halted ==>
      if !old(e.Grows(offset, |data|)) then
        heap.headers == old(heap.headers) && e.dataPtr == old(e.dataPtr) && |e.block| == |old(e.block)| && heap.Valid()
      else if written == Returned(0) then BlockLost(old(heap.headers), heap.headers, e.dataPtr)
      else e.dataPtr != 0 && BlockMoved(old(heap.headers), heap.headers, old(e.dataPtr), e.dataPtr, |e.block|)
    ensures written != Halted && old(!Wrecks(heap.brk, heap.headers, heap.k.pmm.Used(), offset + |data|)) ==>
      heap.Valid()
    ensures written == Returned(|data|) ==>
      && heap.Valid() && Stands(heap.k.mem, heap.k.cr3, e)
      && BytesKept(old(heap.k.mem), heap.k.mem, heap.k.cr3, old(heap.brk), e.dataPtr, e.dataPtr + |e.block|)
    ensures written == Returned(0) && old(!Wrecks(heap.brk, heap.headers, heap.k.pmm.Used(), offset + |data|)) ==>
      BytesKept(old(heap.k.mem), heap.k.mem, heap.k.cr3, old(heap.brk), 0, 0)
  {
    hide Tiled, Backed, Served, ReallocFaults, Wrecks, WrittenBy, BlockMoved, BlockLost, Bits, Wf, SelfMapped;
    hide StructureUsed, BytesAt, BytesKept, Stands, Owns, Entry.FileOk;
    NothingKept(heap.k.mem, heap.k.cr3, heap.brk);
    if data != [] && offset + |data| > e.capacity {
      written, next := WriteGrown(heap, e, offset, data);
    } else {
      written, next := WriteInPlace(heap, e, offset, data);
    }
  }

  ghost predicate AllStand(m: Memory, pd: FrameNo, files: set<Entry>)
    reads files
  {
    forall f <- files :: Stands(m, pd, f)
  }

  /** A file whose block shares no byte with the one written still stands in the heap. */
  lemma OtherStands(m: Memory, m': Memory, pd: FrameNo, brk: nat, f: Entry, lo: nat, hi: nat)
    requires BytesKept(m, m', pd, brk, lo, hi) && Stands(m, pd, f)
    requires f.block != [] ==>
      HEAP_BASE <= f.dataPtr && f.dataPtr + |f.block| <= brk && (f.dataPtr + |f.block| <= lo || hi <= f.dataPtr || hi <= lo)
    ensures Stands(m', pd, f)
  {
    hide ByteAt;
    if f.block != [] { SameBytes(m, m', pd, f.dataPtr, |f.block|); }
  }

  /** Nor does it share a byte with another file's. */
  lemma BlocksApart(heap: KernelHeap, e: Entry, f: Entry)
    requires heap.Valid() && e.FileOk() && f.FileOk() && Owns(heap.headers, e) && Owns(heap.headers, f)
    requires e.dataPtr != 0 ==> f.dataPtr != e.dataPtr
    ensures f.block != [] ==>
      f.dataPtr + |f.block| <= e.dataPtr || e.dataPtr + |e.block| <= f.dataPtr
  {
    hide Tiled, Backed, Bits, Wf, SelfMapped, StructureUsed;
    if f.dataPtr != 0 && e.dataPtr != 0 {
      PayloadsDisjoint(heap.headers, heap.blocks, heap.brk, heap.lh, f.dataPtr - HEADER, e.dataPtr - HEADER);
    }
  }

  /** What krealloc does to one file's block leaves the others their own. */
  lemma OtherOwns(before: map<nat, Header>, after: map<nat, Header>, f: Entry, from: nat, to: nat, length: nat)
    requires Owns(before, f) && (f.dataPtr != 0 ==> f.dataPtr != from)
    requires after == before || BlockLost(before, after, from) || BlockMoved(before, after, from, to, length)
    ensures Owns(after, f)
    ensures BlockMoved(before, after, from, to, length) && f.dataPtr != 0 ==> f.dataPtr != to
  {
  }

  /**
   * The same for one file of a set: when the write succeeds every file has a block of its own again, with its bytes in it, and
   * no other file has changed. A growth that is refused leaves this file with a pointer to a block that is free.
   */
  method WriteAmong(heap: KernelHeap, e: Entry, offset: nat, data: Bytes, ghost files: set<Entry>)
    returns (written: Result<nat>, next: nat)
    requires heap.Valid() && AllOwn(heap.headers, files) && e in files && offset + |data| < TWO32
    requires AllStand(heap.k.mem, heap.k.cr3, files)
    modifies heap`brk, heap`lh, heap`headers, heap`blocks, heap.k`mem, heap.k.pmm`freePages, heap.k.pmm.bitmap
    modifies e`dataPtr, e`block, e`size, e`capacity, e`statSize
    ensures written == Returned(|data|) ==> AllOwn(heap.headers, files) && AllStand(heap.k.mem, heap.k.cr3, files)
    ensures written == Returned(0) && data != [] ==>
      AllOwn(heap.headers, files - {e}) && IsDangling(heap.headers, e.dataPtr)
    ensures written == Returned(0) && old(!Wrecks(heap.brk, heap.headers, heap.k.pmm.Used(), offset + |data|)) ==>
      AllStand(heap.k.mem, heap.k.cr3, files - {e})
  {
    hide Tiled, Backed, Served, ReallocFaults, Wrecks, WrittenBy, CanGrow, GrowthFaults, Bits, Wf, SelfMapped;
    hide StructureUsed, BytesAt, BytesKept, BlockMoved, AllOwn, AllStand, BelowBreak, NotTheirs;
    BlocksInHeap(heap, files);
    ghost var others, from := files - {e}, e.dataPtr;
    Divided(heap.headers, heap.k.mem, heap.k.cr3, heap.brk, e, files);
    written, next := WriteFile(heap, e, offset, data);
    if written != Halted {
      OthersOwn(old(heap.headers), heap.headers, e, others, from);
      if written.value == |data| {
        Joined(heap.headers, e, files);
        OthersStand(heap, old(heap.k.mem), old(heap.brk), e, others, e.dataPtr, e.dataPtr + |e.block|);
        AllTogether(heap.k.mem, heap.k.cr3, e, files);
      } else if old(!Wrecks(heap.brk, heap.headers, heap.k.pmm.Used(), offset + |data|)) {
        OthersStand(heap, old(heap.k.mem), old(heap.brk), e, others, 0, 0);
      }
    }
  }

  ghost predicate BelowBreak(brk: nat, files: set<Entry>)
    reads files
  {
    forall f <- files :: f.block != [] ==> HEAP_BASE <= f.dataPtr && f.dataPtr + |f.block| <= brk
  }

  lemma BlocksInHeap(heap: KernelHeap, files: set<Entry>)
    requires heap.Valid() && AllOwn(heap.headers, files)
    ensures BelowBreak(heap.brk, files)
  {
    hide Tiled, Backed, Bits, Wf, SelfMapped, StructureUsed;
    forall f <- files ensures f.block != [] ==> HEAP_BASE <= f.dataPtr && f.dataPtr + |f.block| <= heap.brk {
      BlockInHeap(heap, f);
    }
  }

  /** None of the files has the block at `ptr`. */
  ghost predicate NotTheirs(files: set<Entry>, ptr: nat)
    reads files
  {
    forall f <- files :: f.dataPtr != 0 ==> f.dataPtr != ptr
  }

  /** One file and the others. */
  lemma Divided(headers: map<nat, Header>, m: Memory, pd: FrameNo, brk: nat, e: Entry, files: set<Entry>)
    requires AllOwn(headers, files) && AllStand(m, pd, files) && BelowBreak(brk, files) && e in files
    ensures e.FileOk() && Owns(headers, e) && Stands(m, pd, e) && NotTheirs(files - {e}, e.dataPtr)
    ensures AllOwn(headers, files - {e}) && AllStand(m, pd, files - {e}) && BelowBreak(brk, files - {e})
  {
    hide BytesAt;
  }

  lemma Joined(headers: map<nat, Header>, e: Entry, files: set<Entry>)
    requires AllOwn(headers, files - {e}) && NotTheirs(files - {e}, e.dataPtr) && e.FileOk() && Owns(headers, e)
    ensures AllOwn(headers, files)
  {
  }

  /** What a write to `e`, whose block was at `from`, leaves to the others. */
  lemma OthersOwn(before: map<nat, Header>, after: map<nat, Header>, e: Entry, others: set<Entry>, from: nat)
    requires AllOwn(before, others) && NotTheirs(others, from)
    requires
      || (after == before && e.dataPtr == from) || (e.dataPtr == from && BlockLost(before, after, from))
      || (e.dataPtr != 0 && BlockMoved(before, after, from, e.dataPtr, |e.block|))
    ensures AllOwn(after, others) && NotTheirs(others, e.dataPtr)
    ensures BlockMoved(before, after, from, e.dataPtr, |e.block|) ==> Owns(after, e)
  {
    hide BlockLost, BlockMoved;
    forall f <- others ensures f.FileOk() && Owns(after, f) && (f.dataPtr != 0 ==> f.dataPtr != e.dataPtr) {
      OtherOwns(before, after, f, from, e.dataPtr, |e.block|);
    }
    if BlockMoved(before, after, from, e.dataPtr, |e.block|) { NewBlockIsOwned(before, after, from, e); }
  }

  lemma NewBlockIsOwned(before: map<nat, Header>, after: map<nat, Header>, from: nat, e: Entry)
    requires BlockMoved(before, after, from, e.dataPtr, |e.block|)
    ensures Owns(after, e)
  {
  }

  /** The others still stand in the heap. */
  lemma OthersStand(heap: KernelHeap, m: Memory, brk: nat, e: Entry, others: set<Entry>, lo: nat, hi: nat)
    requires heap.Valid() && AllStand(m, heap.k.cr3, others) && BelowBreak(brk, others)
    requires BytesKept(m, heap.k.mem, heap.k.cr3, brk, lo, hi)
    requires hi <= lo
      || (e.FileOk() && Owns(heap.headers, e) && AllOwn(heap.headers, others) && NotTheirs(others, e.dataPtr)
          && lo == e.dataPtr && hi == e.dataPtr + |e.block|)
    ensures AllStand(heap.k.mem, heap.k.cr3, others)
  {
    hide BytesKept, BytesAt, Tiled, Backed, Bits, Wf, SelfMapped, StructureUsed;
    forall f <- others ensures Stands(heap.k.mem, heap.k.cr3, f) {
      if lo < hi { BlocksApart(heap, e, f); }
      OtherStands(m, heap.k.mem, heap.k.cr3, brk, f, lo, hi);
    }
  }

  lemma AllTogether(m: Memory, pd: FrameNo, e: Entry, files: set<Entry>)
    requires Stands(m, pd, e) && AllStand(m, pd, files - {e})
    ensures AllStand(m, pd, files)
  {
    hide BytesAt;
  }
}
