/** kprocess_create_user as a whole, and the address space it leaves. */
module UserProcess {
  import opened Base
  import opened PageBits
  import opened Paging
  import opened Pmm
  import opened Vmm
  import opened UserSpace
  import opened UserBuild
  import opened UserStack

  const USER_CODE_SELECTOR := 0x1B
  const USER_DATA_SELECTOR := 0x23

  /** The saved context of a task, as far as this code writes it. */
  class Thread {
    var cs: nat
    var ds: nat
    var es: nat
    var fs: nat
    var gs: nat
    var esp: nat
  }

  class Process {
    var mainThread: Thread?
    var directory: nat        // _page_directory_phys
  }

  /** The two words seeded on the last stack page. */
  ghost predicate Seeded(page: Frame, entry: Vaddr) {
    page[1022] == WordOf(0) && page[1023] == WordOf(entry)
  }

  /** The state when the construction is complete. */
  ghost predicate Built(
    m0: Memory, bits0: seq<bool>, m: Memory, bits: seq<bool>, pd: FrameNo, dir: FrameNo, promoted: set<Index>,
    marks: set<Page>,
    stack: FrameNo, entry: Vaddr)
  {
    && Stacked(m0, bits0, m, bits, pd, dir, promoted, marks, stack, STACK_PAGES)
    && Seeded(m[stack + STACK_PAGES - 1], entry) && KernelWindow(m, pd, 2)
    && m[m[pd][WINDOW_SLOT].frame][2].frame == stack + STACK_PAGES - 1
  }

  /** setup_initial_stack */
  method SetupInitialStack(
    k: Machine, ghost m0: Memory, ghost bits0: seq<bool>, ghost dir: FrameNo, ghost promoted: set<Index>,
    ghost marks: set<Page>,
    stack: FrameNo, entry: Vaddr, thread: Thread) returns (r: Result<bool>)
    requires k.Valid() && Stacked(m0, bits0, k.mem, k.pmm.Used(), k.cr3, dir, promoted, marks, stack, STACK_PAGES)
    modifies k`mem, k.pmm`freePages, k.pmm.bitmap, thread`esp
    ensures k.Valid()
    ensures r == Returned(false) ==> Aftermath(m0, bits0, k.mem, k.pmm.Used(), k.cr3)
    ensures r == Returned(true) ==>
      Built(m0, bits0, k.mem, k.pmm.Used(), k.cr3, dir, promoted, marks, stack, entry) && thread.esp == STACK_TOP - 8
    ensures r == Returned(true) && k.pmm.Used() == old(k.pmm.Used())
  {
    hide Image;
    hide Aftermath, Since, Stacked, StackFrames, StackSlot;
    StackedAftermath(m0, bits0, k.mem, k.pmm.Used(), k.cr3, dir, promoted, marks, stack, STACK_PAGES);
    FixedAddresses();
    ghost var m, bits := k.mem, k.pmm.Used();
    var last := stack + STACK_PAGES - 1;
    r := Remap(k, STACK_TMP, last);
    if r != Returned(true) { return; }
    ghost var m1 := k.mem;
    BuildingRemapped(m0, bits0, m, bits, m1, k.pmm.Used(), k.cr3, dir, 2, last);
    StackedKept(m0, bits0, m, bits, m1, bits, k.cr3, dir, promoted, marks, stack, STACK_PAGES);
    r := SeedStack(k, m0, bits0, dir, promoted, marks, stack, entry);
    if r != Returned(true) { return; }
    thread.esp := STACK_TOP - 8;
  }

  /** setup_initial_stack's two stores, through the stack window: stack_end[-1] and stack_end[-2]. */
  method SeedStack(
    k: Machine, ghost m0: Memory, ghost bits0: seq<bool>, ghost dir: FrameNo, ghost promoted: set<Index>,
    ghost marks: set<Page>,
    ghost stack: FrameNo, entry: Vaddr) returns (r: Result<bool>)
    requires k.Valid() && Stacked(m0, bits0, k.mem, k.pmm.Used(), k.cr3, dir, promoted, marks, stack, STACK_PAGES)
    requires Lookup(k.mem, k.cr3, STACK_WINDOW).Some?
    requires Lookup(k.mem, k.cr3, STACK_WINDOW).value.frame == stack + STACK_PAGES - 1 && KernelWindow(k.mem, k.cr3, 2)
    modifies k`mem
    ensures k.Valid() && r == Returned(true) && k.pmm.Used() == old(k.pmm.Used())
    ensures Built(m0, bits0, k.mem, k.pmm.Used(), k.cr3, dir, promoted, marks, stack, entry)
  {
    hide Image, StackSlot, Since;
    ghost var m, bits, last := k.mem, k.pmm.Used(), stack + STACK_PAGES - 1;
    assert Own(m, k.cr3, bits0, bits, dir, promoted, last);
    var ok := k.Store(STACK_WINDOW, 1023, WordOf(entry));
    if !ok { return Halted; }
    BuildingWrite(m0, bits0, m, bits, k.cr3, dir, last, k.mem[last]);
    ok := k.Store(STACK_WINDOW, 1022, WordOf(0));
    if !ok { return Halted; }
    assert k.mem == m[last := k.mem[last]];
    StackWritten(m0, bits0, m, bits, k.cr3, dir, promoted, marks, stack, last, k.mem[last]);
    return Returned(true);
  }

  lemma StackWritten(
    m0: Memory, bits0: seq<bool>, m: Memory, bits: seq<bool>, pd: FrameNo, dir: FrameNo, promoted: set<Index>,
    marks: set<Page>,
    stack: FrameNo, f: FrameNo, content: Frame)
    requires Stacked(m0, bits0, m, bits, pd, dir, promoted, marks, stack, STACK_PAGES)
    requires stack <= f < stack + STACK_PAGES
    ensures Stacked(m0, bits0, m[f := content], bits, pd, dir, promoted, marks, stack, STACK_PAGES)
    ensures Wf(m[f := content], pd) && StructureUsed(m[f := content], pd, bits)
  {
    assert Own(m, pd, bits0, bits, dir, promoted, f);
    BuildingWrite(m0, bits0, m, bits, pd, dir, f, content);
    ImageOther(m, bits0, bits, pd, dir, promoted, marks, f, content);
    OwnKept(m, bits, m[f := content], bits, pd, bits0, dir, promoted);
  }

  lemma AftermathOfNothing(m: Memory, bits: seq<bool>, pd: FrameNo)
    ensures Aftermath(m, bits, m, bits, pd)
  {
  }

  lemma BuiltAftermath(
    m0: Memory, bits0: seq<bool>, m: Memory, bits: seq<bool>, pd: FrameNo, dir: FrameNo, promoted: set<Index>,
    marks: set<Page>,
    stack: FrameNo, entry: Vaddr)
    requires Built(m0, bits0, m, bits, pd, dir, promoted, marks, stack, entry)
    ensures Aftermath(m0, bits0, m, bits, pd)
  {
    BuildingAftermath(m0, bits0, m, bits, pd, dir);
  }

  /** The selectors of a thread that runs in ring 3. */
  ghost predicate Userland(thread: Thread)
    reads thread
  {
    && thread.cs == USER_CODE_SELECTOR
    && thread.ds == USER_DATA_SELECTOR && thread.es == USER_DATA_SELECTOR
    && thread.fs == USER_DATA_SELECTOR && thread.gs == USER_DATA_SELECTOR
  }

  /** finalize_process_context */
  method FinalizeContext(process: Process, thread: Thread, dir: FrameNo)
    modifies process`directory, thread
    ensures process.directory == dir * PAGE_SIZE
    ensures Userland(thread)
    ensures thread.esp == STACK_TOP - 8
  {
    process.directory := dir * PAGE_SIZE;
    thread.cs := USER_CODE_SELECTOR;
    thread.ds, thread.es, thread.fs, thread.gs := USER_DATA_SELECTOR, USER_DATA_SELECTOR, USER_DATA_SELECTOR, USER_DATA_SELECTOR;
    thread.esp := STACK_TOP - 8;
  }

  /** The slots with private table copies, and the pages made user-accessible, after the three mapping calls. */
  function AllPromoted(layout: Layout, entry: Vaddr): set<Index> {
    PromotedBy(PromotedBy({PageOf(layout.stubs).slot}, layout.syscall), entry)
  }

  function AllMarks(layout: Layout, entry: Vaddr): set<Page> {
    var stub := PageOf(layout.stubs);
    MarksBy(MarksBy({stub}, stub.slot, layout.syscall), stub.slot, entry)
  }

  // ---- When the creation succeeds ----

  /** The addresses lie outside the windows and the recursive slot, as the linker places code. */
  predicate PlainCode(layout: Layout, entry: Vaddr) {
    forall va <- [layout.stubs, layout.syscall, entry] ::
      va >= KERNEL_BASE ==> PageOf(va).slot != WINDOW_SLOT && PageOf(va).slot != RECURSIVE
  }

  /** Kernel code is mapped; addresses below the kernel half are not looked at. */
  predicate CodeReady(m: Memory, pd: FrameNo, va: Vaddr) {
    va >= KERNEL_BASE ==> Lookup(m, pd, PageOf(va)).Some?
  }

  /** Its directory slot is empty: looking at its table faults. */
  predicate CodeFaults(m: Memory, pd: FrameNo, va: Vaddr) {
    va >= KERNEL_BASE && !m[pd][PageOf(va).slot].present
  }

  /** The pages for the directory and, unless it is there, the window table. */
  function DirectoryPages(m: Memory, pd: FrameNo): nat { if m[pd][WINDOW_SLOT].present then 1 else 2 }

  /** The pages for a table copy of its own. */
  function CopyPages(layout: Layout, va: Vaddr): nat {
    if va < KERNEL_BASE || PageOf(va).slot == PageOf(layout.stubs).slot then 0 else 1
  }

  /** All pages taken one at a time before the stack. */
  function SinglePages(m: Memory, pd: FrameNo, layout: Layout, entry: Vaddr): nat {
    DirectoryPages(m, pd) + 1 + CopyPages(layout, layout.syscall) + CopyPages(layout, entry)
  }

  /**
   * Stub, system call and entry are mapped, and there are pages for the directory and the copies; `bits` is what is
   * left.
   */
  ghost predicate KernelHalfReady(
    m: Memory, pd: FrameNo, bits0: seq<bool>, layout: Layout, entry: Vaddr, bits: seq<bool>)
  {
    && CodeReady(m, pd, layout.stubs) && CodeReady(m, pd, layout.syscall) && CodeReady(m, pd, entry)
    && Taken(bits0, SinglePages(m, pd, layout, entry)) == Some(bits)
  }

  /** One of the three looks faults, and everything before it went well. */
  ghost predicate KernelHalfFaults(m: Memory, pd: FrameNo, bits: seq<bool>, layout: Layout, entry: Vaddr) {
    var n := DirectoryPages(m, pd);
    || (CodeFaults(m, pd, layout.stubs) && Taken(bits, n).Some?)
    || (CodeReady(m, pd, layout.stubs) && CodeFaults(m, pd, layout.syscall) && Taken(bits, n + 1).Some?)
    || (CodeReady(m, pd, layout.stubs) && CodeReady(m, pd, layout.syscall) && CodeFaults(m, pd, entry)
        && Taken(bits, n + 1 + CopyPages(layout, layout.syscall)).Some?)
  }

  /** Four pages in a row, and one more for their table. */
  ghost predicate StackRoom(bits: seq<bool>) {
    exists s: nat ::
      && s + STACK_PAGES <= |bits| && LeftmostRun(bits, s, STACK_PAGES)
      && !UsedRun(SetRun(bits, s, STACK_PAGES, true), 0, |bits|)
  }

  /** Some page is free, but no four in a row. */
  ghost predicate StackPanics(bits: seq<bool>) {
    !UsedRun(bits, 0, |bits|) && NoClearRun(bits, STACK_PAGES)
  }

  ghost predicate CanCreate(m: Memory, pd: FrameNo, bits: seq<bool>, layout: Layout, entry: Vaddr) {
    exists left: seq<bool> :: KernelHalfReady(m, pd, bits, layout, entry, left) && StackRoom(left)
  }

  ghost predicate CreationHalts(m: Memory, pd: FrameNo, bits: seq<bool>, layout: Layout, entry: Vaddr) {
    || KernelHalfFaults(m, pd, bits, layout, entry)
    || exists left: seq<bool> :: KernelHalfReady(m, pd, bits, layout, entry, left) && StackPanics(left)
  }

  /** The pages a creation takes: one at a time up to the stack, then the four of the stack, and one for its table. */
  ghost predicate PagesTaken(
    m: Memory, pd: FrameNo, bits: seq<bool>, layout: Layout, entry: Vaddr, after: seq<bool>)
  {
    exists left: seq<bool> :: KernelHalfReady(m, pd, bits, layout, entry, left) && StackPagesTaken(left, after)
  }

  ghost predicate StackPagesTaken(left: seq<bool>, after: seq<bool>) {
    exists s: nat ::
      && s + STACK_PAGES <= |left| && LeftmostRun(left, s, STACK_PAGES)
      && Taken(SetRun(left, s, STACK_PAGES, true), 1) == Some(after)
  }

  /** The three looks and their copies, in turn: the bitmaps between them are those of the pages taken so far. */
  lemma KernelHalfDecided(
    m: Memory, pd: FrameNo, bits0: seq<bool>, layout: Layout, entry: Vaddr, r0: Result<bool>, bits1: seq<bool>,
    r1: Result<bool>, bits2: seq<bool>, r2: Result<bool>, bits3: seq<bool>, r3: Result<bool>, bits4: seq<bool>)
    requires layout.stubs >= KERNEL_BASE && Supplied(bits0, DirectoryPages(m, pd), r0, bits1)
    requires r0 == Returned(true) ==> SuppliedIfMapped(m, pd, PageOf(layout.stubs), bits1, 1, r1, bits2)
    requires r0 == r1 == Returned(true) ==> CodeOutcome(m, pd, layout, layout.syscall, bits2, r2, bits3)
    requires r0 == r1 == r2 == Returned(true) ==> CodeOutcome(m, pd, layout, entry, bits3, r3, bits4)
    ensures KernelHalfOutcome(m, pd, bits0, layout, entry, FirstFailure(r0, FirstFailure(r1, FirstFailure(r2, r3))), bits4)
  {
    hide Taken;
    var n, a, b := DirectoryPages(m, pd), CopyPages(layout, layout.syscall), CopyPages(layout, entry);
    TakenTwice(bits0, n, 1);
    TakenTwice(bits0, n + 1, a);
    TakenTwice(bits0, n + 1 + a, b);
    forall left: seq<bool> | KernelHalfReady(m, pd, bits0, layout, entry, left)
      ensures r0 == r1 == r2 == r3 == Returned(true) && left == bits4
    {
      assert Taken(bits0, n).Some? && Taken(bits0, n + 1).Some? && Taken(bits0, n + 1 + a).Some?;
    }
  }

  function FirstFailure(r: Result<bool>, next: Result<bool>): Result<bool> { if r == Returned(true) then next else r }

  /**
   * The kernel half of the new directory is filled exactly when all is ready, and the call halts exactly on a fault.
   */
  ghost predicate KernelHalfOutcome(
    m: Memory, pd: FrameNo, bits0: seq<bool>, layout: Layout, entry: Vaddr, r: Result<bool>, bits: seq<bool>)
  {
    && (r == Returned(true) ==> KernelHalfReady(m, pd, bits0, layout, entry, bits))
    && (r != Returned(true) ==> forall left: seq<bool> :: !KernelHalfReady(m, pd, bits0, layout, entry, left))
    && (r == Halted <==> KernelHalfFaults(m, pd, bits0, layout, entry))
  }

  /** With the stack behind it. */
  lemma CreationDecided(
    m: Memory, pd: FrameNo, bits0: seq<bool>, layout: Layout, entry: Vaddr,
    r1: Result<bool>, bits1: seq<bool>, r2: Result<bool>, bits2: seq<bool>)
    requires KernelHalfOutcome(m, pd, bits0, layout, entry, r1, bits1)
    requires r1 == Returned(true) ==> StackOutcome(bits1, r2, bits2)
    ensures FirstFailure(r1, r2) == Returned(true) <==> CanCreate(m, pd, bits0, layout, entry)
    ensures FirstFailure(r1, r2) == Halted <==> CreationHalts(m, pd, bits0, layout, entry)
    ensures FirstFailure(r1, r2) == Returned(true) ==> PagesTaken(m, pd, bits0, layout, entry, bits2)
  {
    hide UsedRun, NoClearRun, LeftmostRun, Taken, KernelHalfFaults, StackOutcome, StackPagesTaken;
    if r1 == Returned(true) {
      StackDecided(bits1, r2, bits2);
      forall left: seq<bool> | KernelHalfReady(m, pd, bits0, layout, entry, left) ensures left == bits1 {}
      assert KernelHalfReady(m, pd, bits0, layout, entry, bits1);
      KernelHalfFaultsNot(m, pd, bits0, layout, entry, bits1);
    }
  }

  lemma KernelHalfFaultsNot(m: Memory, pd: FrameNo, bits0: seq<bool>, layout: Layout, entry: Vaddr, bits: seq<bool>)
    requires KernelHalfReady(m, pd, bits0, layout, entry, bits)
    ensures !KernelHalfFaults(m, pd, bits0, layout, entry)
  {
    hide Taken;
  }

  lemma StackDecided(bits: seq<bool>, r: Result<bool>, after: seq<bool>)
    requires StackOutcome(bits, r, after)
    ensures r == Returned(true) <==> StackRoom(bits)
    ensures r == Halted <==> StackPanics(bits)
    ensures r == Returned(true) ==> StackPagesTaken(bits, after)
  {
    hide SetRun, Taken;
    if !UsedRun(bits, 0, |bits|) && !NoClearRun(bits, STACK_PAGES) {
      var s: nat :| LeftmostRun(bits, s, STACK_PAGES) && s + STACK_PAGES <= |bits|
                    && Supplied(SetRun(bits, s, STACK_PAGES, true), 1, r, after);
      TakenOne(SetRun(bits, s, STACK_PAGES, true));
      forall t: nat | LeftmostRun(bits, t, STACK_PAGES) ensures t == s {
        assert ClearRun(bits, s, STACK_PAGES) && ClearRun(bits, t, STACK_PAGES);
      }
      assert |SetRun(bits, s, STACK_PAGES, true)| == |bits|;
    } else {
      forall s: nat ensures !LeftmostRun(bits, s, STACK_PAGES) {
        if UsedRun(bits, 0, |bits|) && s < |bits| { assert bits[s]; }
      }
    }
  }

  ghost predicate CodeOutcome(
    m: Memory, pd: FrameNo, layout: Layout, va: Vaddr, before: seq<bool>, r: Result<bool>, after: seq<bool>)
  {
    if va < KERNEL_BASE then Supplied(before, 0, r, after)
    else SuppliedIfMapped(m, pd, PageOf(va), before, CopyPages(layout, va), r, after)
  }

  /** kprocess_create_user */
  method CreateUser(k: Machine, layout: Layout, process: Process?, entry: Vaddr)
    returns (r: Result<bool>, ghost dir: FrameNo, ghost stack: FrameNo)
    requires k.Valid() && WindowReady(k.mem, k.cr3, k.pmm.Used()) && layout.stubs >= KERNEL_BASE
    modifies k`mem, k.pmm`freePages, k.pmm.bitmap, process, if process == null then null else process.mainThread
    ensures k.Valid()
    ensures r == Returned(false) ==> Aftermath(old(k.mem), old(k.pmm.Used()), k.mem, k.pmm.Used(), k.cr3)
    ensures process == null || old(process.mainThread) == null || entry == 0 ==> r == Returned(false)
    ensures r == Returned(true) ==>
      && process != null && process.mainThread == old(process.mainThread) != null
      && Built(
           old(k.mem), old(k.pmm.Used()), k.mem, k.pmm.Used(), k.cr3, dir,
           AllPromoted(layout, entry), AllMarks(layout, entry), stack, entry)
      && process.directory == dir * PAGE_SIZE && process.mainThread.esp == STACK_TOP - 8
      && Userland(process.mainThread)
    ensures r != Returned(true) && process != null ==> unchanged(process)
    ensures r != Returned(true) && process != null && process.mainThread != null ==> unchanged(process.mainThread)
    ensures process != null && old(process.mainThread) != null && entry != 0 && PlainCode(layout, entry) ==>
      && (r == Returned(true) <==> old(CanCreate(k.mem, k.cr3, k.pmm.Used(), layout, entry)))
      && (r == Halted <==> old(CreationHalts(k.mem, k.cr3, k.pmm.Used(), layout, entry)))
    ensures r == Returned(true) && PlainCode(layout, entry) ==>
      PagesTaken(old(k.mem), k.cr3, old(k.pmm.Used()), layout, entry, k.pmm.Used())
  {
    hide PagesTaken, PlainCode, KernelHalfOutcome, CanCreate, CreationHalts, StackOutcome;
    hide Image, Building, Stacked, Since, StackFrames, Aftermath;
    AftermathOfNothing(k.mem, k.pmm.Used(), k.cr3);
    dir, stack := 0, 0;
    if process == null || process.mainThread == null || entry == 0 {
      return Returned(false), dir, stack;
    }
    var thread := process.mainThread;
    ghost var m0, bits0 := k.mem, k.pmm.Used();
    var newDir, newStack: FrameNo := 0, 0;
    r, newDir := MapKernelHalf(k, m0, bits0, layout, entry);
    dir := newDir;
    ghost var r1, bits1 := r, k.pmm.Used();
    if r != Returned(true) {
      if PlainCode(layout, entry) { CreationDecided(m0, k.cr3, bits0, layout, entry, r1, bits1, r, k.pmm.Used()); }
      return;
    }
    r, newStack := MapUserStack(k, m0, bits0, newDir, AllPromoted(layout, entry), AllMarks(layout, entry));
    stack := newStack;
    if PlainCode(layout, entry) { CreationDecided(m0, k.cr3, bits0, layout, entry, r1, bits1, r, k.pmm.Used()); }
    if r != Returned(true) { return; }
    r := SetupInitialStack(
      k, m0, bits0, newDir, AllPromoted(layout, entry), AllMarks(layout, entry), newStack, entry, thread);
    if r != Returned(true) { return; }
    FinalizeContext(process, thread, newDir);
  }

  /** The steps of kprocess_create_user that fill the kernel half of the new directory. */
  method MapKernelHalf(k: Machine, ghost m0: Memory, ghost bits0: seq<bool>, layout: Layout, entry: Vaddr)
    returns (r: Result<bool>, dir: FrameNo)
    requires k.Valid() && WindowReady(k.mem, k.cr3, k.pmm.Used()) && layout.stubs >= KERNEL_BASE
    requires m0 == k.mem && bits0 == k.pmm.Used()
    modifies k`mem, k.pmm`freePages, k.pmm.bitmap
    ensures k.Valid()
    ensures r == Returned(false) ==> Aftermath(m0, bits0, k.mem, k.pmm.Used(), k.cr3)
    ensures r == Returned(true) ==>
      Shaped(m0, bits0, k.mem, k.pmm.Used(), k.cr3, dir, AllPromoted(layout, entry), AllMarks(layout, entry))
    ensures PlainCode(layout, entry) ==> KernelHalfOutcome(m0, k.cr3, bits0, layout, entry, r, k.pmm.Used())
  {
    hide Image, Building, Since, Aftermath;
    hide PlainCode, KernelHalfOutcome, Supplied, SuppliedIfMapped, CodeOutcome;
    ghost var r1, r2, r3: Result<bool> := Returned(true), Returned(true), Returned(true);
    r, dir := AllocPageDirectory(k);
    ghost var r0, bits1, bits2, bits3 := r, k.pmm.Used(), k.pmm.Used(), k.pmm.Used();
    if r == Returned(true) {
      var cloned := CloneKernelHalf(k, m0, bits0, dir);
      if !cloned { return Halted, dir; }
      var stub := PageOf(layout.stubs);
      var stubCopy;
      ghost var m1 := k.mem;
      r, stubCopy := MapStub(k, m0, bits0, dir, layout.stubs);
      r1, bits2, bits3 := r, k.pmm.Used(), k.pmm.Used();
      StubLook(m0, bits0, m1, bits1, k.cr3, dir, layout, entry, r, bits2);
      if r == Returned(true) {
        ghost var m2 := k.mem;
        r := MapEntry(k, m0, bits0, dir, layout.syscall, stubCopy, stub.slot, {stub.slot}, {stub});
        r2, bits3 := r, k.pmm.Used();
        CodeLook(m0, bits0, m2, bits2, k.cr3, dir, layout, entry, layout.syscall, r, bits3);
        if r == Returned(true) {
          ghost var m3 := k.mem;
          r := MapEntry(
            k, m0, bits0, dir, entry, stubCopy, stub.slot,
            PromotedBy({stub.slot}, layout.syscall), MarksBy({stub}, stub.slot, layout.syscall));
          r3 := r;
          CodeLook(m0, bits0, m3, bits3, k.cr3, dir, layout, entry, entry, r, k.pmm.Used());
        }
      }
    }
    if PlainCode(layout, entry) {
      KernelHalfDecided(m0, k.cr3, bits0, layout, entry, r0, bits1, r1, bits2, r2, bits3, r3, k.pmm.Used());
    }
  }

  /** What the look at the stub's page finds is what stood there at the start. */
  lemma StubLook(
    m0: Memory, bits0: seq<bool>, m: Memory, bits: seq<bool>, pd: FrameNo, dir: FrameNo, layout: Layout, entry: Vaddr,
    r: Result<bool>, after: seq<bool>)
    requires Wf(m0, pd) && StructureUsed(m0, pd, bits0) && Building(m0, bits0, m, bits, pd, dir)
    requires layout.stubs >= KERNEL_BASE
    requires SuppliedIfMapped(m, pd, PageOf(layout.stubs), bits, 1, r, after)
    ensures PlainCode(layout, entry) ==> SuppliedIfMapped(m0, pd, PageOf(layout.stubs), bits, 1, r, after)
  {
    hide Supplied;
    if PlainCode(layout, entry) { CodeStays(m0, bits0, m, bits, pd, dir, PageOf(layout.stubs)); }
  }

  lemma CodeLook(
    m0: Memory, bits0: seq<bool>, m: Memory, bits: seq<bool>, pd: FrameNo, dir: FrameNo, layout: Layout, entry: Vaddr,
    va: Vaddr, r: Result<bool>, after: seq<bool>)
    requires Wf(m0, pd) && StructureUsed(m0, pd, bits0) && Building(m0, bits0, m, bits, pd, dir)
    requires va in [layout.syscall, entry]
    requires va < KERNEL_BASE ==> Supplied(bits, 0, r, after)
    requires va >= KERNEL_BASE ==>
      SuppliedIfMapped(m, pd, PageOf(va), bits, if PageOf(va).slot == PageOf(layout.stubs).slot then 0 else 1, r, after)
    ensures PlainCode(layout, entry) ==> CodeOutcome(m0, pd, layout, va, bits, r, after)
  {
    hide Supplied;
    if PlainCode(layout, entry) && va >= KERNEL_BASE { CodeStays(m0, bits0, m, bits, pd, dir, PageOf(va)); }
  }
}
