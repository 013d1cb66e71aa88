/** process_user.c: the user stack, its first contents, and the whole of kprocess_create_user. */
module UserStack {
  import opened Base
  import opened PageBits
  import opened Paging
  import opened Pmm
  import opened Vmm
  import opened UserSpace
  import opened UserBuild

  /** A frame of the new process alone: no part of the current structure, the directory, or its table copies. */
  ghost predicate Own(
    m: Memory, pd: FrameNo, bits0: seq<bool>, bits: seq<bool>, dir: FrameNo, promoted: set<Index>, f: FrameNo)
  {
    && Private(m, pd, bits0, bits, f) && f != dir
    && forall k: Index :: k in promoted ==> m[dir][k].frame != f
  }

  ghost predicate StackFrames(
    m: Memory, pd: FrameNo, bits0: seq<bool>, bits: seq<bool>, dir: FrameNo, promoted: set<Index>, stack: FrameNo)
  {
    && stack + STACK_PAGES <= FRAME_COUNT
    && forall f: FrameNo :: stack <= f < stack + STACK_PAGES ==> Own(m, pd, bits0, bits, dir, promoted, f)
  }

  /**
   * Entries STACK_INDEX .. STACK_INDEX + i - 1 of the table map the stack's frames, user and writable; the rest is
   * empty.
   */
  ghost predicate StackTable(table: Frame, stack: FrameNo, i: nat)
    requires stack + STACK_PAGES <= FRAME_COUNT && i <= STACK_PAGES
  {
    forall j: Index ::
      if STACK_INDEX <= j < STACK_INDEX + i then
        table[j].present && table[j].rw && table[j].user && table[j].frame == stack + (j - STACK_INDEX)
      else table[j] == ZERO
  }

  /** The stack slot of `dir` after `i` pages. */
  ghost predicate StackSlot(
    m: Memory, pd: FrameNo, bits0: seq<bool>, bits: seq<bool>, dir: FrameNo, promoted: set<Index>, stack: FrameNo,
    i: nat)
    requires stack + STACK_PAGES <= FRAME_COUNT && i <= STACK_PAGES
  {
    var pde := m[dir][STACK_SLOT];
    if i == 0 then pde == ZERO
    else
      && pde.present && pde.rw && pde.user
      && Own(m, pd, bits0, bits, dir, promoted, pde.frame)
      && !(stack <= pde.frame < stack + STACK_PAGES)
      && StackTable(m[pde.frame], stack, i)
  }

  /** Everything known while the stack is being mapped. */
  ghost predicate Stacked(
    m0: Memory, bits0: seq<bool>, m: Memory, bits: seq<bool>, pd: FrameNo, dir: FrameNo, promoted: set<Index>,
    marks: set<Page>,
    stack: FrameNo, i: nat)
  {
    && i <= STACK_PAGES
    && Building(m0, bits0, m, bits, pd, dir) && Image(m, bits0, bits, pd, dir, promoted, marks)
    && StackFrames(m, pd, bits0, bits, dir, promoted, stack)
    && StackSlot(m, pd, bits0, bits, dir, promoted, stack, i)
    && (i > 0 ==> KernelWindow(m, pd, 1))
  }

  lemma StackedAftermath(
    m0: Memory, bits0: seq<bool>, m: Memory, bits: seq<bool>, pd: FrameNo, dir: FrameNo,
    promoted: set<Index>, marks: set<Page>, stack: FrameNo, i: nat)
    requires Stacked(m0, bits0, m, bits, pd, dir, promoted, marks, stack, i)
    ensures Building(m0, bits0, m, bits, pd, dir) && Aftermath(m0, bits0, m, bits, pd)
    ensures stack + STACK_PAGES <= FRAME_COUNT
  {
    BuildingAftermath(m0, bits0, m, bits, pd, dir);
  }

  lemma ShapedAftermath(
    m0: Memory, bits0: seq<bool>, m: Memory, bits: seq<bool>, pd: FrameNo, dir: FrameNo, promoted: set<Index>,
    marks: set<Page>)
    requires Shaped(m0, bits0, m, bits, pd, dir, promoted, marks)
    ensures Aftermath(m0, bits0, m, bits, pd)
  {
    BuildingAftermath(m0, bits0, m, bits, pd, dir);
  }

  /** The entry of the next stack page is still empty. */
  lemma NextEntryEmpty(table: Frame, stack: FrameNo, i: nat)
    requires stack + STACK_PAGES <= FRAME_COUNT && i < STACK_PAGES && StackTable(table, stack, i)
    ensures !table[STACK_INDEX + i].present
  {
  }

  /** A step that changes only windows and free frames keeps all of it. */
  lemma StackedKept(
    m0: Memory, bits0: seq<bool>, m: Memory, bits: seq<bool>, m': Memory, bits': seq<bool>, pd: FrameNo, dir: FrameNo,
    promoted: set<Index>, marks: set<Page>, stack: FrameNo, i: nat)
    requires Stacked(m0, bits0, m, bits, pd, dir, promoted, marks, stack, i)
    requires Kept(m, bits, m', bits', pd) && Building(m0, bits0, m', bits', pd, dir)
    ensures Stacked(m0, bits0, m', bits', pd, dir, promoted, marks, stack, i)
  {
    ImageKept(m, bits0, bits, m', bits', pd, dir, promoted, marks);
    assert Structure(m, pd, WindowTable(m, pd));
    OwnKept(m, bits, m', bits', pd, bits0, dir, promoted);
  }

  lemma OwnKept(
    m: Memory, bits: seq<bool>, m': Memory, bits': seq<bool>, pd: FrameNo, bits0: seq<bool>, dir: FrameNo,
    promoted: set<Index>)
    requires m'[pd] == m[pd] && m'[dir] == m[dir] && Grown(bits, bits')
    ensures forall f: FrameNo :: Own(m, pd, bits0, bits, dir, promoted, f) ==> Own(m', pd, bits0, bits', dir, promoted, f)
  {
    SameDirectory(m, m', pd);
  }

  /** map_user_stack: the branch that creates the stack's page table. */
  method NewStackTable(
    k: Machine, ghost m0: Memory, ghost bits0: seq<bool>, dir: FrameNo, ghost promoted: set<Index>,
    ghost marks: set<Page>,
    ghost stack: FrameNo) returns (r: Result<bool>)
    requires k.Valid() && Stacked(m0, bits0, k.mem, k.pmm.Used(), k.cr3, dir, promoted, marks, stack, 0)
    modifies k`mem, k.pmm`freePages, k.pmm.bitmap
    ensures k.Valid()
    ensures r == Returned(false) ==> Aftermath(m0, bits0, k.mem, k.pmm.Used(), k.cr3)
    ensures r == Returned(true) ==> EmptyStackTable(m0, bits0, k.mem, k.pmm.Used(), k.cr3, dir, promoted, marks, stack)
    ensures Supplied(old(k.pmm.Used()), 1, r, k.pmm.Used())
  {
    hide Aftermath;
    BuildingAftermath(m0, bits0, k.mem, k.pmm.Used(), k.cr3, dir);
    ghost var m, bits := k.mem, k.pmm.Used();
    var page := TakePage(k);
    if page.Halted? { return Halted; }
    if page.value == 0 { return Returned(false); }
    FixedAddresses();
    ghost var bits1 := k.pmm.Used();
    BuildingAlloc(m0, bits0, m, bits, bits1, k.cr3, dir);
    StackedKept(m0, bits0, m, bits, m, bits1, k.cr3, dir, promoted, marks, stack, 0);
    TakenIsOwn(m0, bits0, m, bits, bits1, k.cr3, dir, promoted, marks, stack, page.value);
    r := Remap(k, PT_TMP, page.value);
    if r != Returned(true) { return; }
    ghost var m1 := k.mem;
    BuildingRemapped(m0, bits0, m, bits1, m1, k.pmm.Used(), k.cr3, dir, 1, page.value);
    StackedKept(m0, bits0, m, bits1, m1, bits1, k.cr3, dir, promoted, marks, stack, 0);
    OwnKept(m, bits1, m1, bits1, k.cr3, bits0, dir, promoted);
    ZeroAndPoint(k, m0, bits0, dir, promoted, marks, stack, page.value);
  }

  /** The slot points at an empty table of the process's own. */
  ghost predicate EmptyStackTable(
    m0: Memory, bits0: seq<bool>, m: Memory, bits: seq<bool>, pd: FrameNo, dir: FrameNo, promoted: set<Index>,
    marks: set<Page>,
    stack: FrameNo)
  {
    var pde := m[dir][STACK_SLOT];
    && Building(m0, bits0, m, bits, pd, dir) && Image(m, bits0, bits, pd, dir, promoted, marks)
    && StackFrames(m, pd, bits0, bits, dir, promoted, stack)
    && pde.present && pde.rw && pde.user && Own(m, pd, bits0, bits, dir, promoted, pde.frame)
    && !(stack <= pde.frame < stack + STACK_PAGES) && m[pde.frame] == ZERO_FRAME
  }

  lemma TakenIsOwn(
    m0: Memory, bits0: seq<bool>, m: Memory, bits: seq<bool>, bits1: seq<bool>, pd: FrameNo, dir: FrameNo,
    promoted: set<Index>, marks: set<Page>, stack: FrameNo, f: FrameNo)
    requires Stacked(m0, bits0, m, bits, pd, dir, promoted, marks, stack, 0)
    requires f < |bits| && !bits[f] && bits1 == bits[f := true]
    ensures Own(m, pd, bits0, bits1, dir, promoted, f) && !(stack <= f < stack + STACK_PAGES)
  {
    forall k: Index | k in promoted ensures m[dir][k].frame != f {
      assert PromotedSlot(m, bits0, bits, pd, dir, k, marks);
    }
    assert stack <= f < stack + STACK_PAGES ==> Own(m, pd, bits0, bits, dir, promoted, f);
  }

  method ZeroAndPoint(
    k: Machine, ghost m0: Memory, ghost bits0: seq<bool>, dir: FrameNo, ghost promoted: set<Index>,
    ghost marks: set<Page>,
    ghost stack: FrameNo, f: FrameNo)
    requires k.Valid() && Stacked(m0, bits0, k.mem, k.pmm.Used(), k.cr3, dir, promoted, marks, stack, 0)
    requires Own(k.mem, k.cr3, bits0, k.pmm.Used(), dir, promoted, f) && !(stack <= f < stack + STACK_PAGES)
    requires Lookup(k.mem, k.cr3, PT_WINDOW).Some? && Lookup(k.mem, k.cr3, PT_WINDOW).value.frame == f
    modifies k`mem
    ensures k.Valid() && EmptyStackTable(m0, bits0, k.mem, k.pmm.Used(), k.cr3, dir, promoted, marks, stack)
  {
    ghost var m, bits := k.mem, k.pmm.Used();
    var zeroed := k.ZeroPage(PT_WINDOW);
    ghost var m1 := k.mem;
    BuildingWrite(m0, bits0, m, bits, k.cr3, dir, f, ZERO_FRAME);
    ImageOther(m, bits0, bits, k.cr3, dir, promoted, marks, f, ZERO_FRAME);
    var pointed := k.SetEntry(PD_WINDOW, STACK_SLOT, USER_RW, f);
    ghost var m2 := k.mem;
    BuildingWrite(m0, bits0, m1, bits, k.cr3, dir, dir, m2[dir]);
    PointedImage(m1, bits0, bits, k.cr3, dir, promoted, marks, m2[dir][STACK_SLOT]);
    OwnPointed(m, m2, k.cr3, bits0, bits, dir, promoted);
  }

  /** Filling the stack slot touches nothing the image describes. */
  lemma PointedImage(
    m: Memory, bits0: seq<bool>, bits: seq<bool>, pd: FrameNo, dir: FrameNo, promoted: set<Index>, marks: set<Page>,
    pde: Word)
    requires Image(m, bits0, bits, pd, dir, promoted, marks) && Steady(m, pd, bits) && Private(m, pd, bits0, bits, dir)
    ensures Image(Poke(m, dir, STACK_SLOT, pde), bits0, bits, pd, dir, promoted, marks)
  {
    var m' := Poke(m, dir, STACK_SLOT, pde);
    SameDirectory(m, m', pd);
    forall k: Index | k in promoted ensures PromotedSlot(m', bits0, bits, pd, dir, k, marks) {
      assert PromotedSlot(m, bits0, bits, pd, dir, k, marks);
      if k < RECURSIVE && k != WINDOW_SLOT {
        assert Structure(m, pd, m[pd][k].frame);
        assert m'[m[pd][k].frame] == m[m[pd][k].frame];
      }
    }
  }

  lemma OwnPointed(
    m: Memory, m': Memory, pd: FrameNo, bits0: seq<bool>, bits: seq<bool>, dir: FrameNo, promoted: set<Index>)
    requires m'[pd] == m[pd] && m'[dir] == m[dir][STACK_SLOT := m'[dir][STACK_SLOT]] && STACK_SLOT !in promoted
    ensures forall f: FrameNo :: Own(m, pd, bits0, bits, dir, promoted, f) ==> Own(m', pd, bits0, bits, dir, promoted, f)
  {
    SameDirectory(m, m', pd);
  }

  /** map_user_stack, one page: the table has room for page `i`; show it and fill its entry. */
  method MapStackPage(
    k: Machine, ghost m0: Memory, ghost bits0: seq<bool>, dir: FrameNo, ghost promoted: set<Index>,
    ghost marks: set<Page>,
    stack: FrameNo, i: nat) returns (r: Result<bool>)
    requires i < STACK_PAGES
    requires k.Valid() && Stacked(m0, bits0, k.mem, k.pmm.Used(), k.cr3, dir, promoted, marks, stack, i)
    modifies k`mem, k.pmm`freePages, k.pmm.bitmap
    ensures k.Valid()
    ensures r == Returned(false) ==> Aftermath(m0, bits0, k.mem, k.pmm.Used(), k.cr3)
    ensures r == Returned(true) ==>
      Stacked(m0, bits0, k.mem, k.pmm.Used(), k.cr3, dir, promoted, marks, stack, i + 1)
    ensures Supplied(old(k.pmm.Used()), if i == 0 then 1 else 0, r, k.pmm.Used())
  {
    hide Aftermath, Taken;
    BuildingAftermath(m0, bits0, k.mem, k.pmm.Used(), k.cr3, dir);
    NoneTaken(k.pmm.Used());
    FixedAddresses();
    var p := PageOf(STACK_BOTTOM + i * PAGE_SIZE);
    var pde := k.Load(PD_WINDOW, p.slot);
    if pde.None? { return Halted; }
    if !pde.value.present {
      r := NewStackTable(k, m0, bits0, dir, promoted, marks, stack);
      if r != Returned(true) { return; }
    }
    pde := k.Load(PD_WINDOW, p.slot);
    if pde.None? { return Halted; }
    r := FillStackEntry(k, m0, bits0, dir, promoted, marks, stack, i, pde.value.frame);
  }

  /** The table of the stack slot holds the entries of the first `i` pages. */
  ghost predicate TableReady(
    m0: Memory, bits0: seq<bool>, m: Memory, bits: seq<bool>, pd: FrameNo, dir: FrameNo, promoted: set<Index>,
    marks: set<Page>,
    stack: FrameNo, i: nat, table: FrameNo)
  {
    var pde := m[dir][STACK_SLOT];
    && i <= STACK_PAGES
    && Building(m0, bits0, m, bits, pd, dir) && Image(m, bits0, bits, pd, dir, promoted, marks)
    && StackFrames(m, pd, bits0, bits, dir, promoted, stack)
    && pde.present && pde.rw && pde.user && pde.frame == table && Own(m, pd, bits0, bits, dir, promoted, table)
    && !(stack <= table < stack + STACK_PAGES) && StackTable(m[table], stack, i)
  }

  method FillStackEntry(
    k: Machine, ghost m0: Memory, ghost bits0: seq<bool>, dir: FrameNo, ghost promoted: set<Index>,
    ghost marks: set<Page>,
    stack: FrameNo, i: nat, table: FrameNo) returns (r: Result<bool>)
    requires i < STACK_PAGES && k.Valid()
    requires TableReady(m0, bits0, k.mem, k.pmm.Used(), k.cr3, dir, promoted, marks, stack, i, table)
    modifies k`mem, k.pmm`freePages, k.pmm.bitmap
    ensures k.Valid()
    ensures r == Returned(false) ==> Aftermath(m0, bits0, k.mem, k.pmm.Used(), k.cr3)
    ensures r == Returned(true) ==>
      Stacked(m0, bits0, k.mem, k.pmm.Used(), k.cr3, dir, promoted, marks, stack, i + 1)
    ensures r == Returned(true) && k.pmm.Used() == old(k.pmm.Used())
  {
    hide Aftermath, Image, Since, Stacked;
    BuildingAftermath(m0, bits0, k.mem, k.pmm.Used(), k.cr3, dir);
    FixedAddresses();
    ghost var m, bits := k.mem, k.pmm.Used();
    r := Remap(k, PT_TMP, table);
    if r != Returned(true) { return; }
    BuildingRemapped(m0, bits0, m, bits, k.mem, k.pmm.Used(), k.cr3, dir, 1, table);
    TableReadyKept(m0, bits0, m, bits, k.mem, k.cr3, dir, promoted, marks, stack, i, table);
    r := FillThroughWindow(k, m0, bits0, dir, promoted, marks, stack, i, table);
  }

  /** The entry of stack page `i`, written through the table window. */
  method FillThroughWindow(
    k: Machine, ghost m0: Memory, ghost bits0: seq<bool>, dir: FrameNo, ghost promoted: set<Index>,
    ghost marks: set<Page>,
    stack: FrameNo, i: nat, table: FrameNo) returns (r: Result<bool>)
    requires i < STACK_PAGES && k.Valid()
    requires TableReady(m0, bits0, k.mem, k.pmm.Used(), k.cr3, dir, promoted, marks, stack, i, table)
    requires Lookup(k.mem, k.cr3, PT_WINDOW).Some? && Lookup(k.mem, k.cr3, PT_WINDOW).value.frame == table
    requires KernelWindow(k.mem, k.cr3, 1)
    modifies k`mem
    ensures k.Valid()
    ensures r == Returned(false) ==> Aftermath(m0, bits0, k.mem, k.pmm.Used(), k.cr3)
    ensures r == Returned(true) ==>
      Stacked(m0, bits0, k.mem, k.pmm.Used(), k.cr3, dir, promoted, marks, stack, i + 1)
    ensures r == Returned(true)
  {
    hide Aftermath, Image, Since, Stacked;
    BuildingAftermath(m0, bits0, k.mem, k.pmm.Used(), k.cr3, dir);
    ghost var m1 := k.mem;
    NextEntryEmpty(k.mem[table], stack, i);
    var pte := k.Load(PT_WINDOW, STACK_INDEX + i);
    if pte.None? { return Halted; }
    if pte.value.present { return Returned(false); }
    var filled := k.SetEntry(PT_WINDOW, STACK_INDEX + i, USER_RW, stack + i);
    EntryFilled(
      m0, bits0, m1, k.pmm.Used(), k.cr3, dir, promoted, marks, stack, i, table, k.mem[table][STACK_INDEX + i]);
    r := Returned(true);
  }

  lemma TableReadyKept(
    m0: Memory, bits0: seq<bool>, m: Memory, bits: seq<bool>, m': Memory, pd: FrameNo, dir: FrameNo,
    promoted: set<Index>, marks: set<Page>, stack: FrameNo, i: nat, table: FrameNo)
    requires TableReady(m0, bits0, m, bits, pd, dir, promoted, marks, stack, i, table)
    requires Kept(m, bits, m', bits, pd) && Building(m0, bits0, m', bits, pd, dir)
    ensures TableReady(m0, bits0, m', bits, pd, dir, promoted, marks, stack, i, table)
  {
    ImageKept(m, bits0, bits, m', bits, pd, dir, promoted, marks);
    assert Structure(m, pd, WindowTable(m, pd));
    OwnKept(m, bits, m', bits, pd, bits0, dir, promoted);
  }

  lemma EntryFilled(
    m0: Memory, bits0: seq<bool>, m: Memory, bits: seq<bool>, pd: FrameNo, dir: FrameNo,
    promoted: set<Index>, marks: set<Page>, stack: FrameNo, i: nat, table: FrameNo, w: Word)
    requires i < STACK_PAGES && TableReady(m0, bits0, m, bits, pd, dir, promoted, marks, stack, i, table)
    requires w.present && w.rw && w.user && w.frame == stack + i
    requires KernelWindow(m, pd, 1)
    ensures Stacked(m0, bits0, Poke(m, table, STACK_INDEX + i, w), bits, pd, dir, promoted, marks, stack, i + 1)
    ensures Wf(Poke(m, table, STACK_INDEX + i, w), pd) && StructureUsed(Poke(m, table, STACK_INDEX + i, w), pd, bits)
  {
    var m' := Poke(m, table, STACK_INDEX + i, w);
    BuildingWrite(m0, bits0, m, bits, pd, dir, table, m'[table]);
    ImageOther(m, bits0, bits, pd, dir, promoted, marks, table, m'[table]);
    OwnKept(m, bits, m', bits, pd, bits0, dir, promoted);
  }

  /** What map_user_stack needs: four pages in a row, and one more for the table; only the lack of a run panics. */
  ghost predicate StackOutcome(before: seq<bool>, r: Result<bool>, after: seq<bool>) {
    if UsedRun(before, 0, |before|) then r == Returned(false)
    else if NoClearRun(before, STACK_PAGES) then r == Halted
    else exists s: nat :: LeftmostRun(before, s, STACK_PAGES) && s + STACK_PAGES <= |before|
                          && Supplied(SetRun(before, s, STACK_PAGES, true), 1, r, after)
  }

  /** map_user_stack */
  method MapUserStack(
    k: Machine, ghost m0: Memory, ghost bits0: seq<bool>, dir: FrameNo, ghost promoted: set<Index>,
    ghost marks: set<Page>)
    returns (r: Result<bool>, stack: FrameNo)
    requires k.Valid() && Shaped(m0, bits0, k.mem, k.pmm.Used(), k.cr3, dir, promoted, marks)
    modifies k`mem, k.pmm`freePages, k.pmm.bitmap
    ensures k.Valid()
    ensures r == Returned(false) ==> Aftermath(m0, bits0, k.mem, k.pmm.Used(), k.cr3)
    ensures r == Returned(true) ==>
      Stacked(m0, bits0, k.mem, k.pmm.Used(), k.cr3, dir, promoted, marks, stack, STACK_PAGES)
    ensures StackOutcome(old(k.pmm.Used()), r, k.pmm.Used())
  {
    hide Aftermath, Building, Image, Stacked, Shaped, Supplied, UsedRun, NoClearRun, LeftmostRun, SetRun;
    ShapedAftermath(m0, bits0, k.mem, k.pmm.Used(), k.cr3, dir, promoted, marks);
    stack := 0;
    r, stack := TakeStack(k, m0, bits0, dir, promoted, marks);
    if r != Returned(true) { return; }
    r := MapStackPages(k, m0, bits0, dir, promoted, marks, stack);
  }

  /** The loop of map_user_stack. */
  method MapStackPages(
    k: Machine, ghost m0: Memory, ghost bits0: seq<bool>, dir: FrameNo, ghost promoted: set<Index>,
    ghost marks: set<Page>, stack: FrameNo)
    returns (r: Result<bool>)
    requires k.Valid() && Stacked(m0, bits0, k.mem, k.pmm.Used(), k.cr3, dir, promoted, marks, stack, 0)
    modifies k`mem, k.pmm`freePages, k.pmm.bitmap
    ensures k.Valid()
    ensures r == Returned(false) ==> Aftermath(m0, bits0, k.mem, k.pmm.Used(), k.cr3)
    ensures r == Returned(true) ==>
      Stacked(m0, bits0, k.mem, k.pmm.Used(), k.cr3, dir, promoted, marks, stack, STACK_PAGES)
    ensures Supplied(old(k.pmm.Used()), 1, r, k.pmm.Used())
  {
    hide Aftermath, Building, Image, Stacked, Shaped, Supplied, OneTaken, Bits, Wf, SelfMapped, StructureUsed;
    ghost var bits := k.pmm.Used();
    NothingTaken(bits);
    for i := 0 to STACK_PAGES
      invariant k.Valid()
      invariant OneTaken(bits, i, k.pmm.Used())
      invariant Stacked(m0, bits0, k.mem, k.pmm.Used(), k.cr3, dir, promoted, marks, stack, i)
    {
      ghost var before := k.pmm.Used();
      r := MapStackPage(k, m0, bits0, dir, promoted, marks, stack, i);
      PageTaken(bits, i, before, r, k.pmm.Used());
      if r != Returned(true) { return; }
    }
    r := Returned(true);
    AllTaken(bits, k.pmm.Used());
  }

  /** Before the first page nothing has been taken, after it the page of the table. */
  ghost predicate OneTaken(before: seq<bool>, i: nat, after: seq<bool>) {
    Taken(before, if i == 0 then 0 else 1) == Some(after)
  }

  lemma NothingTaken(bits: seq<bool>)
    ensures OneTaken(bits, 0, bits)
  {
  }

  lemma PageTaken(bits: seq<bool>, i: nat, before: seq<bool>, r: Result<bool>, after: seq<bool>)
    requires OneTaken(bits, i, before) && Supplied(before, if i == 0 then 1 else 0, r, after)
    ensures r == Returned(true) ==> OneTaken(bits, i + 1, after)
    ensures r != Returned(true) ==> Supplied(bits, 1, r, after)
  {
    hide Taken;
    NoneTaken(bits);
    NoneTaken(before);
  }

  lemma AllTaken(bits: seq<bool>, after: seq<bool>)
    requires OneTaken(bits, STACK_PAGES, after)
    ensures Supplied(bits, 1, Returned(true), after)
  {
  }

  /** map_user_stack's own allocation. */
  method TakeStack(
    k: Machine, ghost m0: Memory, ghost bits0: seq<bool>, ghost dir: FrameNo, ghost promoted: set<Index>,
    ghost marks: set<Page>)
    returns (r: Result<bool>, stack: FrameNo)
    requires k.Valid() && Shaped(m0, bits0, k.mem, k.pmm.Used(), k.cr3, dir, promoted, marks)
    modifies k.pmm`freePages, k.pmm.bitmap
    ensures k.Valid()
    ensures r == Returned(false) ==> k.pmm.Used() == old(k.pmm.Used())
    ensures r == Returned(true) ==> Stacked(m0, bits0, k.mem, k.pmm.Used(), k.cr3, dir, promoted, marks, stack, 0)
    ensures if UsedRun(old(k.pmm.Used()), 0, |old(k.pmm.Used())|) then r == Returned(false)
            else if NoClearRun(old(k.pmm.Used()), STACK_PAGES) then r == Halted
            else
              && r == Returned(true) && stack + STACK_PAGES <= |old(k.pmm.Used())| && LeftmostRun(old(k.pmm.Used()), stack, STACK_PAGES)
              && k.pmm.Used() == SetRun(old(k.pmm.Used()), stack, STACK_PAGES, true)
  {
    hide Image, Building, Since;
    ghost var bits := k.pmm.Used();
    stack := 0;
    var addr := k.pmm.AllocPages(STACK_PAGES);
    if addr.Halted? { return Halted, stack; }
    NoRunAtZero(bits, STACK_PAGES);
    if addr.value == 0 {
      return Returned(false), stack;
    }
    stack := addr.value / PAGE_SIZE;
    StackTaken(m0, bits0, k.mem, bits, k.pmm.Used(), k.cr3, dir, promoted, marks, stack);
    return Returned(true), stack;
  }

  lemma StackTaken(
    m0: Memory, bits0: seq<bool>, m: Memory, bits: seq<bool>, bits1: seq<bool>, pd: FrameNo, dir: FrameNo,
    promoted: set<Index>, marks: set<Page>, stack: nat)
    requires Shaped(m0, bits0, m, bits, pd, dir, promoted, marks) && |bits| <= FRAME_COUNT
    requires ClearRun(bits, stack, STACK_PAGES) && bits1 == SetRun(bits, stack, STACK_PAGES, true)
    ensures Stacked(m0, bits0, m, bits1, pd, dir, promoted, marks, stack, 0) && StructureUsed(m, pd, bits1)
  {
    BuildingAlloc(m0, bits0, m, bits, bits1, pd, dir);
    ImageKept(m, bits0, bits, m, bits1, pd, dir, promoted, marks);
    forall f: FrameNo | stack <= f < stack + STACK_PAGES ensures Own(m, pd, bits0, bits1, dir, promoted, f) {
      assert !bits[f];
      forall k: Index | k in promoted ensures m[dir][k].frame != f {
        assert PromotedSlot(m, bits0, bits, pd, dir, k, marks);
      }
    }
  }
}
