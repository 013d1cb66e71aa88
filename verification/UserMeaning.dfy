/** What the address space built by kprocess_create_user translates, and what it leaves of the current one. */
module UserMeaning {
  import opened Base
  import opened PageBits
  import opened Paging
  import opened Pmm
  import opened Vmm
  import opened UserSpace
  import opened UserBuild
  import opened UserStack
  import opened UserProcess

  /** A kernel-half page whose translation the new directory is meant to share. */
  predicate KernelPage(q: Page, promoted: set<Index>) {
    KERNEL_SLOT <= q.slot < RECURSIVE && (q.slot == WINDOW_SLOT ==> WINDOW_SLOT !in promoted)
  }

  function FrameOf(o: Option<Mapping>): Option<FrameNo> {
    match o
    case None => None
    case Some(mapping) => Some(mapping.frame)
  }

  /** The page-table entry of a page, whatever its directory entry says. */
  function EntryOf(m: Memory, pd: FrameNo, q: Page): Word {
    m[m[pd][q.slot].frame][q.index]
  }

  /** Every kernel-half page of the new directory, exactly: shared, or through the private copy of its table. */
  lemma KernelHalfView(
    m0: Memory, bits0: seq<bool>, m: Memory, bits: seq<bool>, pd: FrameNo, dir: FrameNo, promoted: set<Index>,
    marks: set<Page>,
    stack: FrameNo, entry: Vaddr, q: Page)
    requires Built(m0, bits0, m, bits, pd, dir, promoted, marks, stack, entry) && KernelPage(q, promoted)
    ensures q.slot !in promoted ==> Lookup(m, dir, q) == Lookup(m, pd, q)
    ensures q.slot in promoted ==> m[pd][q.slot].present
    ensures q.slot in promoted ==> (Lookup(m, dir, q) ==
      var e := EntryOf(m, pd, q);
      if e.present then Some(Mapping(e.frame, e.rw, e.user || q in marks)) else None)
  {
    if q.slot in promoted {
      assert PromotedSlot(m, bits0, bits, pd, dir, q.slot, marks);
      assert m[m[dir][q.slot].frame][q.index] == if q in marks then Marked(EntryOf(m, pd, q)) else EntryOf(m, pd, q);
    }
  }

  /** Both directories translate every kernel-half page to the same frame. */
  lemma KernelHalfAgrees(
    m0: Memory, bits0: seq<bool>, m: Memory, bits: seq<bool>, pd: FrameNo, dir: FrameNo, promoted: set<Index>,
    marks: set<Page>,
    stack: FrameNo, entry: Vaddr)
    requires Built(m0, bits0, m, bits, pd, dir, promoted, marks, stack, entry)
    ensures forall q: Page :: KernelPage(q, promoted) ==> FrameOf(Lookup(m, dir, q)) == FrameOf(Lookup(m, pd, q))
  {
    forall q: Page | KernelPage(q, promoted)
      ensures FrameOf(Lookup(m, dir, q)) == FrameOf(Lookup(m, pd, q))
    {
      KernelHalfView(m0, bits0, m, bits, pd, dir, promoted, marks, stack, entry, q);
    }
  }

  /** The user half maps the four stack pages, user and writable, to consecutive frames, and nothing else. */
  lemma UserHalfIsTheStack(
    m0: Memory, bits0: seq<bool>, m: Memory, bits: seq<bool>, pd: FrameNo, dir: FrameNo, promoted: set<Index>,
    marks: set<Page>,
    stack: FrameNo, entry: Vaddr, va: Vaddr)
    requires Built(m0, bits0, m, bits, pd, dir, promoted, marks, stack, entry) && va < KERNEL_BASE
    ensures Translate(m, dir, va) ==
      if STACK_BOTTOM <= va < STACK_TOP then Some(stack * PAGE_SIZE + (va - STACK_BOTTOM)) else None
    ensures STACK_BOTTOM <= va < STACK_TOP ==>
      Lookup(m, dir, PageOf(va)).value.rw && Lookup(m, dir, PageOf(va)).value.user
  {
    hide Image, Building;
    var q := PageOf(va);
    StackAddress(va);
    if q.slot != STACK_SLOT { UserSlotsEmpty(m0, bits0, m, bits, pd, dir, promoted, marks, stack, q); }
  }

  lemma UserSlotsEmpty(
    m0: Memory, bits0: seq<bool>, m: Memory, bits: seq<bool>, pd: FrameNo, dir: FrameNo, promoted: set<Index>,
    marks: set<Page>,
    stack: FrameNo, q: Page)
    requires Stacked(m0, bits0, m, bits, pd, dir, promoted, marks, stack, STACK_PAGES) && q.slot < STACK_SLOT
    ensures Lookup(m, dir, q) == None
  {
    assert m[dir][q.slot] == ZERO;
  }

  lemma StackAddress(va: Vaddr)
    requires va < KERNEL_BASE
    ensures PageOf(va).slot <= STACK_SLOT
    ensures STACK_BOTTOM <= va < STACK_TOP <==>
      PageOf(va).slot == STACK_SLOT && STACK_INDEX <= PageOf(va).index < STACK_INDEX + STACK_PAGES
    ensures STACK_BOTTOM <= va < STACK_TOP ==>
      va - STACK_BOTTOM == (PageOf(va).index - STACK_INDEX) * PAGE_SIZE + va % PAGE_SIZE
  {
  }

  /** The 32-bit word at a word-aligned virtual address. */
  function ReadWord(m: Memory, pd: FrameNo, va: Vaddr): Option<int>
    requires va % 4 == 0
  {
    match Lookup(m, pd, PageOf(va))
    case None => None
    case Some(mapping) => Some(ValueOf(m[mapping.frame][va % PAGE_SIZE / 4]))
  }

  /** At the saved stack pointer the process finds 0 (its return address) and then its entry point. */
  lemma StackHoldsEntry(
    m0: Memory, bits0: seq<bool>, m: Memory, bits: seq<bool>, pd: FrameNo, dir: FrameNo, promoted: set<Index>,
    marks: set<Page>,
    stack: FrameNo, entry: Vaddr)
    requires Built(m0, bits0, m, bits, pd, dir, promoted, marks, stack, entry)
    ensures ReadWord(m, dir, STACK_TOP - 8) == Some(0) && ReadWord(m, dir, STACK_TOP - 4) == Some(entry)
  {
    hide Image, Building;
    StackAddress(STACK_TOP - 8);
    StackAddress(STACK_TOP - 4);
    assert PageOf(STACK_TOP - 8) == PageOf(STACK_TOP - 4) == Page(STACK_SLOT, STACK_INDEX + 3);
  }

  /** The directory entry of the page's slot keeps user code out of a page whose own entry would let it in. */
  predicate HiddenBySlot(m: Memory, pd: FrameNo, q: Page) {
    Lookup(m, pd, q).Some? && EntryOf(m, pd, q).user && !m[pd][q.slot].user
  }

  /**
   * The new directory and its tables, seen through its own recursive slot: never by user code, so the process cannot edit
   * its address space; the kernel can write the directory.
   */
  lemma OwnTablesAreKernelOnly(
    m0: Memory, bits0: seq<bool>, m: Memory, bits: seq<bool>, pd: FrameNo, dir: FrameNo, promoted: set<Index>,
    marks: set<Page>, stack: FrameNo, entry: Vaddr, slot: Index)
    requires Built(m0, bits0, m, bits, pd, dir, promoted, marks, stack, entry) && RECURSIVE !in promoted
    ensures Lookup(m, dir, PD_PAGE) == Some(Mapping(dir, true, false))
    ensures Lookup(m, dir, TablePage(slot)) ==
      if m[dir][slot].present then Some(Mapping(m[dir][slot].frame, m[dir][slot].rw, false)) else None
  {
    hide Building, StackFrames, StackSlot;
  }

  /**
   * After a creation the three windows show frames of the new process, writable where their slot is, to the kernel
   * alone.
   */
  lemma WindowsAreKernelOnly(
    m0: Memory, bits0: seq<bool>, m: Memory, bits: seq<bool>, pd: FrameNo, dir: FrameNo, promoted: set<Index>,
    marks: set<Page>, stack: FrameNo, entry: Vaddr, i: Index)
    requires Built(m0, bits0, m, bits, pd, dir, promoted, marks, stack, entry) && i <= 2
    ensures var w := Lookup(m, pd, Page(WINDOW_SLOT, i));
      && w.Some? && !w.value.user && (w.value.rw <==> m[pd][WINDOW_SLOT].rw)
      && (i == 0 ==> w.value.frame == dir) && (i == 2 ==> w.value.frame == stack + STACK_PAGES - 1)
      && (WINDOW_SLOT !in promoted ==> Lookup(m, dir, Page(WINDOW_SLOT, i)) == w)
    ensures m[pd][WINDOW_SLOT].rw <==> (m0[pd][WINDOW_SLOT].present ==> m0[pd][WINDOW_SLOT].rw)
  {
    hide StackFrames, StackSlot;
    assert KernelWindow(m, pd, 0) && KernelWindow(m, pd, 1) && KernelWindow(m, pd, 2);
  }

  /** On every other exit too a window that user code can reach is one it could reach before. */
  lemma WindowsNeverBecomeUser(m0: Memory, bits0: seq<bool>, m: Memory, bits: seq<bool>, pd: FrameNo, i: Index)
    requires Wf(m0, pd) && Aftermath(m0, bits0, m, bits, pd) && i <= 2
    requires Lookup(m, pd, Page(WINDOW_SLOT, i)).Some? && Lookup(m, pd, Page(WINDOW_SLOT, i)).value.user
    ensures Lookup(m0, pd, Page(WINDOW_SLOT, i)) == Lookup(m, pd, Page(WINDOW_SLOT, i))
  {
    if m != m0 { assert !KernelEntry(m[WindowTable(m, pd)][i]); }
  }

  /**
   * A kernel page of the new directory is user-accessible exactly if it is marked, or was user-accessible in the current
   * directory, or lies in a copied slot whose directory entry was all that kept user code out (the copy's slot lets it in);
   * no page of the recursive slot is.
   */
  lemma OnlyMarkedPagesBecomeUser(
    m0: Memory, bits0: seq<bool>, m: Memory, bits: seq<bool>, pd: FrameNo, dir: FrameNo, promoted: set<Index>,
    marks: set<Page>,
    stack: FrameNo, entry: Vaddr, q: Page)
    requires Built(m0, bits0, m, bits, pd, dir, promoted, marks, stack, entry)
    requires KernelPage(q, promoted) || (q.slot == RECURSIVE && RECURSIVE !in promoted)
    requires Lookup(m, dir, q).Some?
    ensures q.slot != RECURSIVE ==> Lookup(m, pd, q).Some?
    ensures Lookup(m, dir, q).value.user <==> (
              q.slot != RECURSIVE
              && (Lookup(m, pd, q).value.user || (q.slot in promoted && (q in marks || HiddenBySlot(m, pd, q)))))
  {
    hide Building, StackFrames, StackSlot;
    if q.slot == RECURSIVE {
      OwnTablesAreKernelOnly(m0, bits0, m, bits, pd, dir, promoted, marks, stack, entry, q.index);
    } else {
      KernelHalfView(m0, bits0, m, bits, pd, dir, promoted, marks, stack, entry, q);
    }
  }

  /** With everything in one slot the marked pages are the stub's, the system call's and the entry's. */
  lemma MarksInOneSlot(layout: Layout, entry: Vaddr)
    requires layout.stubs >= KERNEL_BASE && layout.syscall >= KERNEL_BASE && entry >= KERNEL_BASE
    requires PageOf(layout.syscall).slot == PageOf(layout.stubs).slot == PageOf(entry).slot
    ensures AllPromoted(layout, entry) == {PageOf(layout.stubs).slot}
    ensures AllMarks(layout, entry) == {PageOf(layout.stubs), PageOf(layout.syscall), PageOf(entry)}
  {
  }

  /**
   * In general the stub and the entry are always marked; the system call page loses its mark exactly when the entry's
   * new copy replaces its own.
   */
  lemma MarksInGeneral(layout: Layout, entry: Vaddr)
    requires layout.stubs >= KERNEL_BASE && layout.syscall >= KERNEL_BASE
    ensures PageOf(layout.stubs) in AllMarks(layout, entry)
    ensures entry >= KERNEL_BASE ==> PageOf(entry) in AllMarks(layout, entry)
    ensures PageOf(layout.syscall) !in AllMarks(layout, entry) <==>
      && entry >= KERNEL_BASE && PageOf(entry) != PageOf(layout.syscall)
      && PageOf(entry).slot == PageOf(layout.syscall).slot != PageOf(layout.stubs).slot
    ensures forall q <- AllMarks(layout, entry) ::
      q == PageOf(layout.stubs) || q == PageOf(layout.syscall) || (entry >= KERNEL_BASE && q == PageOf(entry))
  {
  }

  /**
   * A creation takes exactly these pages: the directory and its table copies, the window table if it was missing, and five
   * for the stack.
   */
  lemma CreationCost(m: Memory, pd: FrameNo, bits: seq<bool>, layout: Layout, entry: Vaddr, after: seq<bool>)
    requires PagesTaken(m, pd, bits, layout, entry, after)
    ensures ClearCount(bits) - ClearCount(after) == SinglePages(m, pd, layout, entry) + STACK_PAGES + 1
    ensures PageOf(layout.syscall).slot == PageOf(layout.stubs).slot == PageOf(entry).slot ==>
      ClearCount(bits) - ClearCount(after) == if m[pd][WINDOW_SLOT].present then 7 else 8
  {
    hide ClearCount, Taken, LeftmostRun, SetRun;
    var left :| KernelHalfReady(m, pd, bits, layout, entry, left) && StackPagesTaken(left, after);
    var s: nat :| s + STACK_PAGES <= |left| && LeftmostRun(left, s, STACK_PAGES)
      && Taken(SetRun(left, s, STACK_PAGES, true), 1) == Some(after);
    TakenCount(bits, SinglePages(m, pd, layout, entry));
    TakenCount(SetRun(left, s, STACK_PAGES, true), 1);
    LeftmostIsClear(left, s, STACK_PAGES);
    TakenRun(left, s, STACK_PAGES);
  }

  /** Successful or not, the call leaves the current address space as it was outside its three window pages. */
  lemma CurrentSpaceKept(m0: Memory, bits0: seq<bool>, m: Memory, bits: seq<bool>, pd: FrameNo, q: Page)
    requires Wf(m0, pd) && StructureUsed(m0, pd, bits0) && Aftermath(m0, bits0, m, bits, pd)
    requires q.slot < RECURSIVE && !(q.slot == WINDOW_SLOT && q.index <= 2)
    ensures Lookup(m, pd, q) == Lookup(m0, pd, q)
  {
    if m != m0 {
      if q.slot != WINDOW_SLOT && m0[pd][q.slot].present {
        assert Structure(m0, pd, m0[pd][q.slot].frame);
        if m0[pd][WINDOW_SLOT].present { assert m0[pd][q.slot].frame != WindowTable(m, pd); }
      }
    }
  }

  /** The new directory is itself well formed, over frames the allocator holds. */
  lemma NewDirectoryWellFormed(
    m0: Memory, bits0: seq<bool>, m: Memory, bits: seq<bool>, pd: FrameNo, dir: FrameNo, promoted: set<Index>,
    marks: set<Page>,
    stack: FrameNo, entry: Vaddr)
    requires Built(m0, bits0, m, bits, pd, dir, promoted, marks, stack, entry) && RECURSIVE !in promoted
    ensures Wf(m, dir) && StructureUsed(m, dir, bits)
  {
    forall k: Index | k < RECURSIVE && m[dir][k].present
      ensures TableOf(m, bits, pd, dir, promoted, k)
    {
      if k in promoted {
        assert PromotedSlot(m, bits0, bits, pd, dir, k, marks);
      } else if k >= KERNEL_SLOT {
        assert Structure(m, pd, m[pd][k].frame);
      }
    }
    forall j: Index, k: Index | j < k < RECURSIVE && m[dir][j].present && m[dir][k].present
      ensures m[dir][j].frame != m[dir][k].frame
    {
      assert TableOf(m, bits, pd, dir, promoted, j) && TableOf(m, bits, pd, dir, promoted, k);
    }
    forall f: FrameNo | Structure(m, dir, f) ensures f < |bits| && bits[f] {
      if f != dir {
        var k: Index :| k < RECURSIVE && m[dir][k].present && m[dir][k].frame == f;
        assert TableOf(m, bits, pd, dir, promoted, k);
      }
    }
  }

  /** Where the table of slot `k` comes from. */
  ghost predicate TableOf(m: Memory, bits: seq<bool>, pd: FrameNo, dir: FrameNo, promoted: set<Index>, k: Index) {
    var f := m[dir][k].frame;
    && f != dir && f < |bits| && bits[f] && k >= STACK_SLOT
    && if k in promoted then !Structure(m, pd, f)
       else if k == STACK_SLOT then !Structure(m, pd, f) && forall s: Index :: s in promoted ==> m[dir][s].frame != f
       else m[dir][k] == m[pd][k] && Structure(m, pd, f)
  }
}
