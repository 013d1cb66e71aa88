/** All page directories together, over whole runs of process creations and heap growth. */
module Directories {
  import opened Base
  import opened PageBits
  import opened Paging
  import opened Vmm
  import opened UserSpace
  import opened UserBuild
  import opened UserStack
  import opened UserProcess
  import opened UserMeaning
  import opened HeapLayout

  const HEAP_SLOT: Index := 832     // the slot of the whole heap, 0xD0000000 .. 0xD0064000

  /** Physical memory, the page bitmap, and the directories in existence. */
  datatype World = World(mem: Memory, bits: seq<bool>, dirs: set<FrameNo>)

  datatype Event =
    | CreateProcess(current: FrameNo, layout: Layout, entry: Vaddr, ok: bool)
    | MapHeapPage(current: FrameNo, va: Vaddr, pa: Vaddr, flags: Flags)
    | TakePages                                   // the allocator hands out pages
    | WriteFrame(f: FrameNo, content: Frame)      // anything written to memory that is no page table

  /** Code lies neither in the heap, nor in the windows, nor in the recursive slot. */
  predicate CodeAddress(va: Vaddr) {
    va >= KERNEL_BASE ==> PageOf(va).slot != HEAP_SLOT && PageOf(va).slot != WINDOW_SLOT && PageOf(va).slot != RECURSIVE
  }

  ghost predicate Created(
    w: World, current: FrameNo, layout: Layout, entry: Vaddr, v: World, dir: FrameNo, stack: FrameNo)
  {
    && Built(w.mem, w.bits, v.mem, v.bits, current, dir, AllPromoted(layout, entry), AllMarks(layout, entry), stack, entry)
    && v.dirs == w.dirs + {dir}
  }

  ghost predicate Step(w: World, e: Event, v: World) {
    match e
    case CreateProcess(current, layout, entry, ok) =>
      && current in w.dirs && layout.stubs >= KERNEL_BASE
      && CodeAddress(layout.stubs) && CodeAddress(layout.syscall) && CodeAddress(entry)
      && WindowReady(w.mem, current, w.bits)
      && if ok then exists dir: FrameNo, stack: FrameNo :: Created(w, current, layout, entry, v, dir, stack)
         else
           && Aftermath(w.mem, w.bits, v.mem, v.bits, current) && v.dirs == w.dirs
           && Wf(v.mem, current) && StructureUsed(v.mem, current, v.bits)
    case MapHeapPage(current, va, pa, flags) =>
      && current in w.dirs && PageOf(va).slot == HEAP_SLOT && flags.present && v.dirs == w.dirs
      && HeapFrame(w, pa / PAGE_SIZE)
      && exists r :: MapOutcome(w.mem, current, w.bits, va, pa, flags, r, v.mem, v.bits)
    case TakePages =>
      Grown(w.bits, v.bits) && v.mem == w.mem && v.dirs == w.dirs
    case WriteFrame(f, content) =>
      && (forall d <- w.dirs :: !Structure(w.mem, d, f))
      && v == World(w.mem[f := content], w.bits, w.dirs)
  }

  /** A frame the allocator gave out, and no part of any paging structure: what kmalloc maps. */
  ghost predicate HeapFrame(w: World, f: FrameNo) {
    f < |w.bits| && w.bits[f] && forall d <- w.dirs :: !Structure(w.mem, d, f)
  }

  ghost predicate Run(w: World, events: seq<Event>, v: World)
    decreases |events|
  {
    if events == [] then w == v
    else
      var before, last := events[..|events| - 1], events[|events| - 1];
      exists mid :: Run(w, before, mid) && Step(mid, last, v)
  }

  ghost predicate SameKernelHalf(m: Memory, d: FrameNo, e: FrameNo) {
    forall q: Page :: KERNEL_SLOT <= q.slot < RECURSIVE ==> FrameOf(Lookup(m, d, q)) == FrameOf(Lookup(m, e, q))
  }

  /** The frames the heap shows are used, and no part of this directory's structure. */
  ghost predicate HeapApart(m: Memory, bits: seq<bool>, d: FrameNo) {
    forall i: Index :: Lookup(m, d, Page(HEAP_SLOT, i)).Some? ==>
      OwnFrame(m, d, bits, Lookup(m, d, Page(HEAP_SLOT, i)).value.frame)
  }

  /**
   * Every directory is well formed and apart from the heap's frames, all share the heap and window tables, and all agree on
   * the kernel half.
   */
  ghost predicate Inv(w: World) {
    && (forall d <- w.dirs :: Sound(w.mem, w.bits, d))
    && (forall d, e :: d in w.dirs && e in w.dirs ==> Shared(w.mem, d, e))
    && (forall d, e :: d in w.dirs && e in w.dirs ==> SameKernelHalf(w.mem, d, e))
  }

  ghost predicate Sound(m: Memory, bits: seq<bool>, d: FrameNo) {
    Wf(m, d) && StructureUsed(m, d, bits) && m[d][HEAP_SLOT].present && HeapApart(m, bits, d)
  }

  /** Only a lone directory can lack the window table. */
  ghost predicate Shared(m: Memory, d: FrameNo, e: FrameNo) {
    && m[d][HEAP_SLOT] == m[e][HEAP_SLOT] && m[d][WINDOW_SLOT] == m[e][WINDOW_SLOT]
    && (d != e ==> m[d][WINDOW_SLOT].present)
  }

  /** Runs start at kmalloc_init: one directory with a heap whose frames are its own. */
  lemma HeapInitStartsRuns(m: Memory, cr3: FrameNo, bits: seq<bool>, endPage: nat)
    requires Wf(m, cr3) && StructureUsed(m, cr3, bits)
    requires FIRST_PAGE <= endPage <= END_PAGE && Backed(m, cr3, bits, endPage)
    ensures Inv(World(m, bits, {cr3}))
  {
    hide Wf, StructureUsed, OwnFrame;
    forall i: Index | Lookup(m, cr3, Page(HEAP_SLOT, i)).Some?
      ensures OwnFrame(m, cr3, bits, Lookup(m, cr3, Page(HEAP_SLOT, i)).value.frame)
    {
      HeapPageIsBacked(m, cr3, bits, endPage, i);
    }
    assert PageNo(FIRST_PAGE).slot == HEAP_SLOT;
  }

  /** The heap's slot has 1024 pages, of which the heap's address range is the lowest part. */
  lemma HeapPageIsBacked(m: Memory, cr3: FrameNo, bits: seq<bool>, endPage: nat, i: Index)
    requires FIRST_PAGE <= endPage <= END_PAGE && Backed(m, cr3, bits, endPage)
    requires Lookup(m, cr3, Page(HEAP_SLOT, i)).Some?
    ensures OwnFrame(m, cr3, bits, Lookup(m, cr3, Page(HEAP_SLOT, i)).value.frame)
  {
    assert PageNo(FIRST_PAGE + i) == Page(HEAP_SLOT, i);
    assert FrameAt(m, cr3, FIRST_PAGE + i).Some?;
  }

  /** Over every run all directories keep agreeing on the kernel half. */
  lemma {:induction false} DirectoriesKeepAgreeing(w: World, events: seq<Event>, v: World)
    requires Inv(w) && Run(w, events, v)
    ensures Inv(v) && w.dirs <= v.dirs
    decreases |events|
  {
    if events != [] {
      var e := events[|events| - 1];
      var mid :| Run(w, events[..|events| - 1], mid) && Step(mid, e, v);
      DirectoriesKeepAgreeing(w, events[..|events| - 1], mid);
      match e {
        case CreateProcess(current, layout, entry, ok) =>
          if ok {
            var dir: FrameNo, stack: FrameNo :| Created(mid, current, layout, entry, v, dir, stack);
            CreationKeepsInv(mid, current, layout, entry, v, dir, stack);
          } else {
            FailureKeepsInv(mid, current, v);
          }
        case MapHeapPage(current, va, pa, flags) =>
          var r :| MapOutcome(mid.mem, current, mid.bits, va, pa, flags, r, v.mem, v.bits);
          HeapPageKeepsInv(mid, current, va, pa, flags, r, v);
        case TakePages =>
        case WriteFrame(f, content) =>
          WriteKeepsInv(mid, f, content);
      }
    }
  }

  /** A call made in directory `current` does not disturb another directory's view, except in the shared windows. */
  lemma OtherDirectoryKept(m: Memory, bits: seq<bool>, m': Memory, bits': seq<bool>, current: FrameNo, d: FrameNo)
    requires Wf(m, current) && Wf(m, d) && StructureUsed(m, current, bits) && StructureUsed(m, d, bits)
    requires Shared(m, current, d) && Aftermath(m, bits, m', bits', current) && Wf(m', current)
    requires StructureUsed(m', current, bits')
    requires SameKernelHalf(m, current, d) && m[d][HEAP_SLOT].present && HeapApart(m, bits, d)
    ensures Wf(m', d) && StructureUsed(m', d, bits') && Shared(m', current, d) && m'[d][HEAP_SLOT].present
    ensures SameKernelHalf(m', current, d)
    ensures HeapApart(m', bits', d)
  {
    HeapStaysApart(m, bits, m', bits', current, d);
    if d == current {
    } else if m' != m {
      assert m[current][WINDOW_SLOT].present;
      assert Structure(m, d, d) && Structure(m, d, WindowTable(m, d));
      assert m'[d] == m[d] && m'[current] == m[current];
      SameDirectory(m, m', d);
      forall q: Page | KERNEL_SLOT <= q.slot < RECURSIVE
        ensures FrameOf(Lookup(m', current, q)) == FrameOf(Lookup(m', d, q))
      {
        if q.slot != WINDOW_SLOT {
          CurrentSpaceKept(m, bits, m', bits', current, q);
          OtherPageKept(m, bits, m', bits', current, d, q);
        }
      }
    }
  }

  lemma HeapStaysApart(m: Memory, bits: seq<bool>, m': Memory, bits': seq<bool>, current: FrameNo, d: FrameNo)
    requires Wf(m, current) && Wf(m, d) && StructureUsed(m, current, bits) && StructureUsed(m, d, bits)
    requires Shared(m, current, d) && Aftermath(m, bits, m', bits', current)
    requires m[d][HEAP_SLOT].present && HeapApart(m, bits, d)
    ensures HeapApart(m', bits', d)
  {
    if m' != m {
      var table := m[d][HEAP_SLOT].frame;
      assert Structure(m, d, d) && Structure(m, d, table) && Structure(m, current, current);
      if d != current { assert Structure(m, d, WindowTable(m, d)); }
      assert m'[d][HEAP_SLOT] == m[d][HEAP_SLOT] && m'[table] == m[table];
      forall i: Index | Lookup(m', d, Page(HEAP_SLOT, i)).Some?
        ensures OwnFrame(m', d, bits', Lookup(m', d, Page(HEAP_SLOT, i)).value.frame)
      {
        var f := Lookup(m, d, Page(HEAP_SLOT, i)).value.frame;
        assert OwnFrame(m, d, bits, f);
        forall k: Index | k < RECURSIVE && m'[d][k].present ensures m'[d][k].frame != f {
          assert k == WINDOW_SLOT || m'[d][k] == m[d][k];
        }
      }
    }
  }

  lemma OtherPageKept(m: Memory, bits: seq<bool>, m': Memory, bits': seq<bool>, current: FrameNo, d: FrameNo, q: Page)
    requires Wf(m, d) && StructureUsed(m, d, bits) && Since(m, bits, m', bits', current)
    requires m[current][WINDOW_SLOT].present && m[d][WINDOW_SLOT] == m[current][WINDOW_SLOT] && m'[d] == m[d]
    requires q.slot < RECURSIVE && q.slot != WINDOW_SLOT
    ensures Lookup(m', d, q) == Lookup(m, d, q)
  {
    if m[d][q.slot].present {
      assert Structure(m, d, m[d][q.slot].frame);
      assert m[d][q.slot].frame != WindowTable(m, d);
    }
  }

  lemma FailureKeepsInv(w: World, current: FrameNo, v: World)
    requires Inv(w) && current in w.dirs && v.dirs == w.dirs
    requires Aftermath(w.mem, w.bits, v.mem, v.bits, current) && Wf(v.mem, current)
    requires StructureUsed(v.mem, current, v.bits)
    ensures Inv(v)
  {
    EachWithCurrent(w, current, v.mem, v.bits);
    AgreementIsTransitive(v, current);
  }

  lemma EachWithCurrent(w: World, current: FrameNo, m': Memory, bits': seq<bool>)
    requires Inv(w) && current in w.dirs
    requires Aftermath(w.mem, w.bits, m', bits', current) && Wf(m', current) && StructureUsed(m', current, bits')
    ensures forall d <- w.dirs :: WithCurrent(m', bits', current, d)
  {
    forall d <- w.dirs ensures WithCurrent(m', bits', current, d) {
      OtherDirectoryKept(w.mem, w.bits, m', bits', current, d);
    }
  }

  ghost predicate WithCurrent(m: Memory, bits: seq<bool>, current: FrameNo, d: FrameNo) {
    && Sound(m, bits, d)
    && Shared(m, current, d) && SameKernelHalf(m, current, d)
  }

  lemma AgreementIsTransitive(v: World, current: FrameNo)
    requires forall d <- v.dirs :: WithCurrent(v.mem, v.bits, current, d)
    requires current in v.dirs
    ensures Inv(v)
  {
    forall d, e | d in v.dirs && e in v.dirs ensures Shared(v.mem, d, e) && SameKernelHalf(v.mem, d, e) {
      assert WithCurrent(v.mem, v.bits, current, d) && WithCurrent(v.mem, v.bits, current, e);
    }
  }

  lemma CreationKeepsInv(
    w: World, current: FrameNo, layout: Layout, entry: Vaddr, v: World, dir: FrameNo, stack: FrameNo)
    requires Inv(w) && current in w.dirs && layout.stubs >= KERNEL_BASE
    requires CodeAddress(layout.stubs) && CodeAddress(layout.syscall) && CodeAddress(entry)
    requires Created(w, current, layout, entry, v, dir, stack)
    ensures Inv(v)
  {
    hide HeapApart, CopyOf, PromotedSlot, StackTable, Seeded, StackFrames;
    var promoted, marks := AllPromoted(layout, entry), AllMarks(layout, entry);
    assert HEAP_SLOT !in promoted && WINDOW_SLOT !in promoted && RECURSIVE !in promoted;
    BuiltAftermath(w.mem, w.bits, v.mem, v.bits, current, dir, promoted, marks, stack, entry);
    EachWithCurrent(w, current, v.mem, v.bits);
    NewDirectoryWellFormed(w.mem, w.bits, v.mem, v.bits, current, dir, promoted, marks, stack, entry);
    KernelHalfAgrees(w.mem, w.bits, v.mem, v.bits, current, dir, promoted, marks, stack, entry);
    NewHeapApart(w.mem, w.bits, v.mem, v.bits, current, dir, promoted, marks, stack, entry);
    assert WithCurrent(v.mem, v.bits, current, dir) by {
      forall q: Page | KERNEL_SLOT <= q.slot < RECURSIVE
        ensures FrameOf(Lookup(v.mem, current, q)) == FrameOf(Lookup(v.mem, dir, q))
      {
        assert KernelPage(q, promoted);
      }
    }
    AgreementIsTransitive(v, current);
  }

  /** The new directory's own frames were free, so the heap does not show them. */
  lemma NewHeapApart(
    m0: Memory, bits0: seq<bool>, m: Memory, bits: seq<bool>, pd: FrameNo, dir: FrameNo, promoted: set<Index>,
    marks: set<Page>,
    stack: FrameNo, entry: Vaddr)
    requires Built(m0, bits0, m, bits, pd, dir, promoted, marks, stack, entry) && HEAP_SLOT !in promoted
    requires Wf(m0, pd) && StructureUsed(m0, pd, bits0) && HeapApart(m0, bits0, pd) && HeapApart(m, bits, pd)
    requires m0[pd][HEAP_SLOT].present
    ensures HeapApart(m, bits, dir)
  {
    forall i: Index | Lookup(m, dir, Page(HEAP_SLOT, i)).Some?
      ensures OwnFrame(m, dir, bits, Lookup(m, dir, Page(HEAP_SLOT, i)).value.frame)
    {
      BuiltAftermath(m0, bits0, m, bits, pd, dir, promoted, marks, stack, entry);
      CurrentSpaceKept(m0, bits0, m, bits, pd, Page(HEAP_SLOT, i));
      assert m[dir][HEAP_SLOT] == m[pd][HEAP_SLOT];
      var f := Lookup(m, dir, Page(HEAP_SLOT, i)).value.frame;
      assert Lookup(m0, pd, Page(HEAP_SLOT, i)) == Lookup(m, pd, Page(HEAP_SLOT, i)) && bits0[f];
      forall k: Index | k < RECURSIVE && m[dir][k].present ensures m[dir][k].frame != f {
        if k in promoted {
          assert PromotedSlot(m, bits0, bits, pd, dir, k, marks);
        } else if k >= KERNEL_SLOT {
          assert Structure(m, pd, m[pd][k].frame);
        }
      }
    }
  }

  /** After a switch to another directory the heap is backed as before. */
  lemma HeapBackedEverywhere(w: World, d: FrameNo, e: FrameNo, endPage: nat)
    requires Inv(w) && d in w.dirs && e in w.dirs && FIRST_PAGE <= endPage <= END_PAGE
    requires Backed(w.mem, d, w.bits, endPage)
    ensures Backed(w.mem, e, w.bits, endPage) && Wf(w.mem, e) && StructureUsed(w.mem, e, w.bits)
  {
    assert Sound(w.mem, w.bits, e) && Shared(w.mem, d, e);
    forall n: nat | FIRST_PAGE <= n < END_PAGE
      ensures FrameAt(w.mem, e, n) == FrameAt(w.mem, d, n)
      ensures FrameAt(w.mem, e, n).Some? ==> OwnFrame(w.mem, e, w.bits, FrameAt(w.mem, e, n).value)
      ensures KernelOnly(w.mem, d, n) ==> KernelOnly(w.mem, e, n)
    {
      assert PageNo(n) == Page(HEAP_SLOT, n - FIRST_PAGE);
    }
  }

  lemma HeapPageKeepsInv(w: World, current: FrameNo, va: Vaddr, pa: Vaddr, flags: Flags, r: Result<bool>, v: World)
    requires Inv(w) && current in w.dirs && PageOf(va).slot == HEAP_SLOT && flags.present && v.dirs == w.dirs
    requires HeapFrame(w, pa / PAGE_SIZE)
    requires MapOutcome(w.mem, current, w.bits, va, pa, flags, r, v.mem, v.bits)
    ensures Inv(v)
  {
    if v.mem != w.mem {
      var i := PageOf(va).index;
      var entry := v.mem[w.mem[current][HEAP_SLOT].frame][i];
      assert v.mem == Poke(w.mem, w.mem[current][HEAP_SLOT].frame, i, entry);
      forall d <- v.dirs ensures WithCurrent(v.mem, v.bits, current, d) {
        assert Shared(w.mem, current, d) && SameKernelHalf(w.mem, current, d);
        ExistingTable(w.mem, d, w.bits, Page(HEAP_SLOT, i), entry);
        ExistingTable(w.mem, current, w.bits, Page(HEAP_SLOT, i), entry);
        OnePageMore(w.mem, w.bits, d, i, entry, v.mem);
      }
      AgreementIsTransitive(v, current);
    }
  }

  lemma OnePageMore(m: Memory, bits: seq<bool>, d: FrameNo, i: Index, w: Word, m': Memory)
    requires Sound(m, bits, d) && m' == Poke(m, m[d][HEAP_SLOT].frame, i, w) && OwnFrame(m, d, bits, w.frame)
    ensures HeapApart(m', bits, d)
  {
    assert m[d][HEAP_SLOT].frame != d && m'[d] == m[d];
    SameDirectory(m, m', d);
    forall j: Index | Lookup(m', d, Page(HEAP_SLOT, j)).Some?
      ensures OwnFrame(m', d, bits, Lookup(m', d, Page(HEAP_SLOT, j)).value.frame)
    {
      assert j == i || Lookup(m', d, Page(HEAP_SLOT, j)) == Lookup(m, d, Page(HEAP_SLOT, j));
    }
  }

  lemma WriteKeepsInv(w: World, f: FrameNo, content: Frame)
    requires Inv(w) && forall d <- w.dirs :: !Structure(w.mem, d, f)
    ensures Inv(World(w.mem[f := content], w.bits, w.dirs))
  {
    var v := World(w.mem[f := content], w.bits, w.dirs);
    forall d <- w.dirs ensures Sound(v.mem, v.bits, d) && v.mem[d] == w.mem[d] && SameView(w.mem, v.mem, d) {
      OutsideWrite(w.mem, d, f, content);
    }
    forall d, e | d in v.dirs && e in v.dirs ensures Shared(v.mem, d, e) && SameKernelHalf(v.mem, d, e) {
      assert Shared(w.mem, d, e) && SameKernelHalf(w.mem, d, e);
    }
  }
}
