/** process_user.c: the steps of kprocess_create_user. */
module UserBuild {
  import opened Base
  import opened PageBits
  import opened Paging
  import opened Pmm
  import opened Vmm
  import opened UserSpace

  const USER_RW := Flags(true, true, true)

  /** One page from the allocator, as every step asks for it: Returned(0) is the NULL answer. */
  method TakePage(k: Machine) returns (r: Result<FrameNo>)
    requires k.Valid()
    modifies k.pmm`freePages, k.pmm.bitmap
    ensures k.Valid() && Grown(old(k.pmm.Used()), k.pmm.Used())
    ensures r.Returned? && r.value == 0 ==> k.pmm.Used() == old(k.pmm.Used())
    ensures r.Returned? && r.value != 0 ==>
      && LeftmostRun(old(k.pmm.Used()), r.value, 1) && r.value < |old(k.pmm.Used())|
      && !old(k.pmm.Used())[r.value] && k.pmm.Used() == old(k.pmm.Used())[r.value := true]
    ensures r.Returned? && Supplied(old(k.pmm.Used()), 1, Returned(r.value != 0), k.pmm.Used())
  {
    SinglePage(k.pmm.Used());
    TakenOne(k.pmm.Used());
    var addr := k.pmm.AllocPages(1);
    if addr.Halted? { return Halted; }
    return Returned(addr.value / PAGE_SIZE);
  }

  /** The window table exists, or the frame it will take (the second lowest free one) can be zeroed. */
  ghost predicate WindowReady(m: Memory, pd: FrameNo, bits: seq<bool>) {
    SecondFreeVisible(m, pd, bits, WINDOW_SLOT)
  }

  /** alloc_page_directory */
  method AllocPageDirectory(k: Machine) returns (r: Result<bool>, dir: FrameNo)
    requires k.Valid() && WindowReady(k.mem, k.cr3, k.pmm.Used())
    modifies k`mem, k.pmm`freePages, k.pmm.bitmap
    ensures k.Valid()
    ensures r == Returned(false) ==> Aftermath(old(k.mem), old(k.pmm.Used()), k.mem, k.pmm.Used(), k.cr3)
    ensures r == Returned(true) ==>
      Building(old(k.mem), old(k.pmm.Used()), k.mem, k.pmm.Used(), k.cr3, dir) && k.mem[dir] == ZERO_FRAME
    ensures Supplied(old(k.pmm.Used()), if old(k.mem)[k.cr3][WINDOW_SLOT].present then 1 else 2, r, k.pmm.Used())
  {
    hide Taken;
    ghost var m0, bits0 := k.mem, k.pmm.Used();
    TakenTwice(bits0, 1, if m0[k.cr3][WINDOW_SLOT].present then 0 else 1);
    dir := 0;
    var page := TakePage(k);
    if page.Halted? { return Halted, dir; }
    if page.value == 0 { return Returned(false), dir; }
    dir := page.value;
    FixedAddresses();
    ghost var bits1 := k.pmm.Used();
    r := Remap(k, PD_TMP, dir);
    if r != Returned(true) { return; }
    ghost var m1 := k.mem;
    assert !Structure(m0, k.cr3, dir);
    DirectoryWindowed(m0, bits0, bits1, m1, k.pmm.Used(), k.cr3, dir);
    var zeroed := k.ZeroPage(PD_WINDOW);
    BuildingWrite(m0, bits0, m1, k.pmm.Used(), k.cr3, dir, dir, ZERO_FRAME);
  }

  lemma DirectoryWindowed(
    m0: Memory, bits0: seq<bool>, bits1: seq<bool>, m: Memory, bits: seq<bool>, pd: FrameNo, dir: FrameNo)
    requires Wf(m0, pd) && StructureUsed(m0, pd, bits0) && dir < |bits0| && !bits0[dir] && bits1 == bits0[dir := true]
    requires Remapped(m0, bits1, m, bits, pd, 0, dir)
    ensures Building(m0, bits0, m, bits, pd, dir)
  {
    var table := WindowTable(m, pd);
    assert !Structure(m0, pd, dir);
    if m0[pd][WINDOW_SLOT].present {
      SameDirectory(m0, m, pd);
    } else {
      forall f: FrameNo | Structure(m, pd, f) && f != table ensures Structure(m0, pd, f) {
        if f != pd {
          var s: Index :| s < RECURSIVE && m[pd][s].present && m[pd][s].frame == f;
          assert m0[pd][s] == m[pd][s];
        }
      }
    }
    assert !Structure(m, pd, dir);
  }

  /** clone_kernel_high_half: copies entries 768..1022 and installs the self-reference. */
  method CloneKernelHalf(k: Machine, ghost m0: Memory, ghost bits0: seq<bool>, dir: FrameNo) returns (ok: bool)
    requires k.Valid() && Building(m0, bits0, k.mem, k.pmm.Used(), k.cr3, dir) && k.mem[dir] == ZERO_FRAME
    modifies k`mem
    ensures ok && k.Valid() && Building(m0, bits0, k.mem, k.pmm.Used(), k.cr3, dir)
    ensures Image(k.mem, bits0, k.pmm.Used(), k.cr3, dir, {}, {}) && k.mem[dir][STACK_SLOT] == ZERO
  {
    ghost var m, bits := k.mem, k.pmm.Used();
    RecursiveWindows(m, k.cr3, 0);
    for i := KERNEL_SLOT to RECURSIVE
      invariant k.mem == m[dir := k.mem[dir]]
      invariant forall j: Index :: k.mem[dir][j] == if KERNEL_SLOT <= j < i then m[k.cr3][j] else ZERO
    {
      BuildingWrite(m0, bits0, m, bits, k.cr3, dir, dir, k.mem[dir]);
      RecursiveWindows(k.mem, k.cr3, 0);
      var word := k.Load(PD_PAGE, i);
      if word.None? { return false; }
      ok := k.Store(PD_WINDOW, i, word.value);
      if !ok { return; }
    }
    BuildingWrite(m0, bits0, m, bits, k.cr3, dir, dir, k.mem[dir]);
    ghost var cloned := k.mem;
    ok := k.SetEntry(PD_WINDOW, RECURSIVE, KERNEL_RW, dir);
    BuildingWrite(m0, bits0, cloned, bits, k.cr3, dir, dir, k.mem[dir]);
  }

  /** The first steps of copying a table: a page of its own, seen through the table window. */
  method TakeWindow(k: Machine, ghost m0: Memory, ghost bits0: seq<bool>, ghost dir: FrameNo)
    returns (r: Result<bool>, copy: FrameNo)
    requires k.Valid() && Building(m0, bits0, k.mem, k.pmm.Used(), k.cr3, dir)
    modifies k`mem, k.pmm`freePages, k.pmm.bitmap
    ensures k.Valid()
    ensures r == Returned(false) ==> Aftermath(m0, bits0, k.mem, k.pmm.Used(), k.cr3)
    ensures r == Returned(true) ==>
      && Building(m0, bits0, k.mem, k.pmm.Used(), k.cr3, dir)
      && Grown(old(k.pmm.Used()), k.pmm.Used()) && Kept(old(k.mem), k.pmm.Used(), k.mem, k.pmm.Used(), k.cr3)
      && Private(k.mem, k.cr3, bits0, k.pmm.Used(), copy) && copy < |old(k.pmm.Used())| && !old(k.pmm.Used())[copy]
      && Lookup(k.mem, k.cr3, PT_WINDOW).Some? && Lookup(k.mem, k.cr3, PT_WINDOW).value.frame == copy
      && WindowTable(k.mem, k.cr3) == WindowTable(old(k.mem), k.cr3)
    ensures Supplied(old(k.pmm.Used()), 1, r, k.pmm.Used())
  {
    hide Aftermath, Since;
    BuildingAftermath(m0, bits0, k.mem, k.pmm.Used(), k.cr3, dir);
    copy := 0;
    ghost var m, bits := k.mem, k.pmm.Used();
    var page := TakePage(k);
    if page.Halted? { return Halted, copy; }
    if page.value == 0 { return Returned(false), copy; }
    copy := page.value;
    FixedAddresses();
    ghost var bits1 := k.pmm.Used();
    BuildingAlloc(m0, bits0, m, bits, bits1, k.cr3, dir);
    r := Remap(k, PT_TMP, copy);
    if r != Returned(true) { return; }
    BuildingRemapped(m0, bits0, m, bits1, k.mem, k.pmm.Used(), k.cr3, dir, 1, copy);
  }

  /** The common start of map_stub_user_page and map_entry_if_kernel: a fresh copy of the current table of `slot`. */
  method CopyTable(k: Machine, ghost m0: Memory, ghost bits0: seq<bool>, ghost dir: FrameNo, slot: Index)
    returns (r: Result<bool>, copy: FrameNo)
    requires k.Valid() && Building(m0, bits0, k.mem, k.pmm.Used(), k.cr3, dir)
    modifies k`mem, k.pmm`freePages, k.pmm.bitmap
    ensures k.Valid()
    ensures r == Returned(false) ==> Aftermath(m0, bits0, k.mem, k.pmm.Used(), k.cr3)
    ensures r == Returned(true) ==>
      && Building(m0, bits0, k.mem, k.pmm.Used(), k.cr3, dir)
      && Kept(old(k.mem), old(k.pmm.Used()), k.mem, k.pmm.Used(), k.cr3)
      && Private(k.mem, k.cr3, bits0, k.pmm.Used(), copy) && !old(k.pmm.Used())[copy]
      && Lookup(k.mem, k.cr3, PT_WINDOW).Some? && Lookup(k.mem, k.cr3, PT_WINDOW).value.frame == copy
      && (slot < RECURSIVE ==> k.mem[k.cr3][slot].present)
      && (slot < RECURSIVE && slot != WINDOW_SLOT ==> k.mem[copy] == k.mem[k.mem[k.cr3][slot].frame])
    ensures old(k.mem)[k.cr3][slot].present ==> Supplied(old(k.pmm.Used()), 1, r, k.pmm.Used())
  {
    hide Aftermath, Since, Taken;
    ghost var m, bits := k.mem, k.pmm.Used();
    r, copy := TakeWindow(k, m0, bits0, dir);
    if r != Returned(true) { return; }
    ghost var m1, bits1 := k.mem, k.pmm.Used();
    FixedAddresses();
    RecursiveWindows(m1, k.cr3, slot);
    var copied := k.CopyPage(PT_WINDOW, TablePage(slot));
    if !copied { return Halted, copy; }
    BuildingWrite(m0, bits0, m1, bits1, k.cr3, dir, copy, k.mem[copy]);
    CopyKeeps(m, bits, m1, bits1, k.cr3, copy, k.mem[copy]);
    if slot < RECURSIVE { assert Structure(m1, k.cr3, m1[k.cr3][slot].frame); }
  }

  lemma CopyKeeps(m: Memory, bits: seq<bool>, m1: Memory, bits1: seq<bool>, pd: FrameNo, f: FrameNo, content: Frame)
    requires Kept(m, bits1, m1, bits1, pd) && Grown(bits, bits1) && f < |bits| && !bits[f]
    requires f != pd && f != WindowTable(m, pd)
    ensures Kept(m, bits, m1[f := content], bits1, pd)
  {
  }

  /** user_pt->_entries[i]._user = 1 through the table window */
  method MarkEntry(k: Machine, i: Index) returns (ok: bool)
    modifies k`mem
    ensures ok <==> old(Lookup(k.mem, k.cr3, PT_WINDOW)).Some?
    ensures k.mem == if ok then
              var f := old(Lookup(k.mem, k.cr3, PT_WINDOW)).value.frame;
              Poke(old(k.mem), f, i, Marked(old(k.mem)[f][i]))
            else old(k.mem)
  {
    var word := k.Load(PT_WINDOW, i);
    if word.None? { return false; }
    ok := k.Store(PT_WINDOW, i, Marked(word.value));
  }

  /** Building, with the kernel half described. */
  ghost predicate Shaped(
    m0: Memory, bits0: seq<bool>, m: Memory, bits: seq<bool>, pd: FrameNo, dir: FrameNo, promoted: set<Index>,
    marks: set<Page>)
  {
    Building(m0, bits0, m, bits, pd, dir) && Image(m, bits0, bits, pd, dir, promoted, marks) && m[dir][STACK_SLOT] == ZERO
  }

  /** map_stub_user_page */
  method MapStub(k: Machine, ghost m0: Memory, ghost bits0: seq<bool>, dir: FrameNo, stubs: Vaddr)
    returns (r: Result<bool>, copy: FrameNo)
    requires PageOf(stubs).slot >= KERNEL_SLOT
    requires k.Valid() && Shaped(m0, bits0, k.mem, k.pmm.Used(), k.cr3, dir, {}, {})
    modifies k`mem, k.pmm`freePages, k.pmm.bitmap
    ensures k.Valid()
    ensures r == Returned(false) ==> Aftermath(m0, bits0, k.mem, k.pmm.Used(), k.cr3)
    ensures r == Returned(true) ==>
      && Shaped(m0, bits0, k.mem, k.pmm.Used(), k.cr3, dir, {PageOf(stubs).slot}, {PageOf(stubs)})
      && k.mem[dir][PageOf(stubs).slot].frame == copy
    ensures SuppliedIfMapped(old(k.mem), k.cr3, PageOf(stubs), old(k.pmm.Used()), 1, r, k.pmm.Used())
  {
    hide Image, Kept, Aftermath, Taken;
    BuildingAftermath(m0, bits0, k.mem, k.pmm.Used(), k.cr3, dir);
    copy := 0;
    var p := PageOf(stubs);
    RecursiveWindows(k.mem, k.cr3, p.slot);
    var entry := k.Load(TablePage(p.slot), p.index);
    if entry.None? { return Halted, copy; }
    if !entry.value.present { return Returned(false), copy; }
    ghost var m, bits := k.mem, k.pmm.Used();
    r, copy := CopyTable(k, m0, bits0, dir, p.slot);
    if r != Returned(true) { return; }
    MarkAndPoint(k, m0, bits0, dir, p, copy, m, bits);
  }

  /** The end of map_stub_user_page: mark the stub's entry in the copy, and point the slot at the copy. */
  method MarkAndPoint(
    k: Machine, ghost m0: Memory, ghost bits0: seq<bool>, dir: FrameNo, p: Page, copy: FrameNo, ghost m: Memory,
    ghost bits: seq<bool>)
    requires k.Valid() && p.slot >= KERNEL_SLOT && Shaped(m0, bits0, m, bits, k.cr3, dir, {}, {})
    requires Building(m0, bits0, k.mem, k.pmm.Used(), k.cr3, dir) && Kept(m, bits, k.mem, k.pmm.Used(), k.cr3)
    requires Private(k.mem, k.cr3, bits0, k.pmm.Used(), copy) && !bits[copy]
    requires Lookup(k.mem, k.cr3, PT_WINDOW).Some? && Lookup(k.mem, k.cr3, PT_WINDOW).value.frame == copy
    requires p.slot < RECURSIVE ==> k.mem[k.cr3][p.slot].present
    requires p.slot < RECURSIVE && p.slot != WINDOW_SLOT ==> k.mem[copy] == k.mem[k.mem[k.cr3][p.slot].frame]
    modifies k`mem
    ensures k.Valid() && Shaped(m0, bits0, k.mem, k.pmm.Used(), k.cr3, dir, {p.slot}, {p})
    ensures k.mem[dir][p.slot].frame == copy
  {
    hide Image;
    ghost var m1, bits1 := k.mem, k.pmm.Used();
    var marked := MarkEntry(k, p.index);
    ghost var m2 := k.mem;
    BuildingWrite(m0, bits0, m1, bits1, k.cr3, dir, copy, m2[copy]);
    var pointed := k.SetEntry(PD_WINDOW, p.slot, USER_RW, copy);
    BuildingWrite(m0, bits0, m2, bits1, k.cr3, dir, dir, k.mem[dir]);
    StubShape(m0, bits0, m, bits, m1, bits1, k.cr3, dir, p, copy, k.mem[dir][p.slot]);
  }

  lemma StubShape(
    m0: Memory, bits0: seq<bool>, m: Memory, bits: seq<bool>, m1: Memory, bits1: seq<bool>, pd: FrameNo, dir: FrameNo,
    p: Page, copy: FrameNo, pde: Word)
    requires Shaped(m0, bits0, m, bits, pd, dir, {}, {}) && Kept(m, bits, m1, bits1, pd)
    requires Building(m0, bits0, m1, bits1, pd, dir)
    requires Private(m1, pd, bits0, bits1, copy) && !bits[copy] && p.slot >= KERNEL_SLOT
    requires p.slot < RECURSIVE ==> m1[pd][p.slot].present
    requires p.slot < RECURSIVE && p.slot != WINDOW_SLOT ==> m1[copy] == m1[m1[pd][p.slot].frame]
    requires pde.present && pde.rw && pde.user && pde.frame == copy
    ensures var m2 := Poke(m1, copy, p.index, Marked(m1[copy][p.index]));
      Image(Poke(m2, dir, p.slot, pde), bits0, bits1, pd, dir, {p.slot}, {p})
  {
    var m2 := Poke(m1, copy, p.index, Marked(m1[copy][p.index]));
    ImageKept(m, bits0, bits, m1, bits1, pd, dir, {}, {});
    ImageOther(m1, bits0, bits1, pd, dir, {}, {}, copy, m2[copy]);
    BuildingWrite(m0, bits0, m1, bits1, pd, dir, copy, m2[copy]);
    if p.slot < RECURSIVE { assert Structure(m1, pd, m1[pd][p.slot].frame); }
    ImagePromote(m2, bits0, bits1, pd, dir, {}, {}, p.slot, pde, {p});
    assert {} + {p.slot} == {p.slot};
  }

  const KERNEL_BASE := 0xC000_0000

  /** The slots that have private copies after map_entry_if_kernel on `va`. */
  function PromotedBy(promoted: set<Index>, va: Vaddr): set<Index> {
    if va < KERNEL_BASE then promoted else promoted + {PageOf(va).slot}
  }

  /** The pages marked afterwards: outside the stub's slot the copy is a new one, so earlier marks there are lost. */
  function MarksBy(marks: set<Page>, stubSlot: Index, va: Vaddr): set<Page> {
    if va < KERNEL_BASE then marks
    else if PageOf(va).slot == stubSlot then marks + {PageOf(va)}
    else (set q | q in marks && q.slot != PageOf(va).slot) + {PageOf(va)}
  }

  /** map_entry_if_kernel */
  method MapEntry(
    k: Machine, ghost m0: Memory, ghost bits0: seq<bool>, dir: FrameNo, va: Vaddr, stubCopy: FrameNo, stubSlot: Index,
    ghost promoted: set<Index>, ghost marks: set<Page>) returns (r: Result<bool>)
    requires k.Valid() && Shaped(m0, bits0, k.mem, k.pmm.Used(), k.cr3, dir, promoted, marks)
    requires stubSlot in promoted && k.mem[dir][stubSlot].frame == stubCopy
    modifies k`mem, k.pmm`freePages, k.pmm.bitmap
    ensures k.Valid()
    ensures r == Returned(false) ==> Aftermath(m0, bits0, k.mem, k.pmm.Used(), k.cr3)
    ensures r == Returned(true) ==>
      && Shaped(m0, bits0, k.mem, k.pmm.Used(), k.cr3, dir, PromotedBy(promoted, va), MarksBy(marks, stubSlot, va))
      && k.mem[dir][stubSlot].frame == stubCopy
    ensures va < KERNEL_BASE ==> Supplied(old(k.pmm.Used()), 0, r, k.pmm.Used())
    ensures va >= KERNEL_BASE ==>
      SuppliedIfMapped(old(k.mem), k.cr3, PageOf(va), old(k.pmm.Used()), if PageOf(va).slot == stubSlot then 0 else 1, r, k.pmm.Used())
  {
    hide Image, Kept, CopyOf, Aftermath;
    hide Taken;
    BuildingAftermath(m0, bits0, k.mem, k.pmm.Used(), k.cr3, dir);
    var p := PageOf(va);
    NoneTaken(k.pmm.Used());
    if va < KERNEL_BASE {
      return Returned(true);
    }
    RecursiveWindows(k.mem, k.cr3, p.slot);
    var entry := k.Load(TablePage(p.slot), p.index);
    if entry.None? { return Halted; }
    if !entry.value.present { return Returned(false); }
    var copy := stubCopy;
    if p.slot != stubSlot {
      r, copy := CopyAndPoint(k, m0, bits0, dir, p, promoted, marks);
      if r != Returned(true) { return; }
    }
    assert p.slot == stubSlot ==> promoted + {p.slot} == promoted;
    ghost var kept := if p.slot == stubSlot then marks else set q | q in marks && q.slot != p.slot;
    r := RemapAndMark(k, m0, bits0, dir, p, copy, PromotedBy(promoted, va), kept);
  }

  /** The branch that clones a table of its own: copy it, then point the slot at the copy. */
  method CopyAndPoint(
    k: Machine, ghost m0: Memory, ghost bits0: seq<bool>, dir: FrameNo, p: Page,
    ghost promoted: set<Index>, ghost marks: set<Page>) returns (r: Result<bool>, copy: FrameNo)
    requires p.slot >= KERNEL_SLOT
    requires k.Valid() && Shaped(m0, bits0, k.mem, k.pmm.Used(), k.cr3, dir, promoted, marks)
    modifies k`mem, k.pmm`freePages, k.pmm.bitmap
    ensures k.Valid()
    ensures r == Returned(false) ==> Aftermath(m0, bits0, k.mem, k.pmm.Used(), k.cr3)
    ensures r == Returned(true) ==>
      && Shaped(m0, bits0, k.mem, k.pmm.Used(), k.cr3, dir, promoted + {p.slot}, set q | q in marks && q.slot != p.slot)
      && k.mem[dir][p.slot].frame == copy
      && (forall s: Index :: s != p.slot ==> k.mem[dir][s] == old(k.mem)[dir][s])
    ensures old(k.mem)[k.cr3][p.slot].present ==> Supplied(old(k.pmm.Used()), 1, r, k.pmm.Used())
  {
    hide Image, CopyOf, Aftermath, Taken, Since, Kept;
    ghost var m, bits := k.mem, k.pmm.Used();
    r, copy := CopyTable(k, m0, bits0, dir, p.slot);
    if r != Returned(true) { return; }
    ghost var m1, bits1 := k.mem, k.pmm.Used();
    DirectoryKept(m, bits, m1, bits1, m0, bits0, k.cr3, dir);
    var pointed := k.SetEntry(PD_WINDOW, p.slot, USER_RW, copy);
    BuildingWrite(m0, bits0, m1, bits1, k.cr3, dir, dir, k.mem[dir]);
    EntryShape(m0, bits0, m, bits, m1, bits1, k.cr3, dir, promoted, marks, p, copy, k.mem[dir][p.slot]);
  }

  lemma DirectoryKept(
    m: Memory, bits: seq<bool>, m1: Memory, bits1: seq<bool>, m0: Memory, bits0: seq<bool>, pd: FrameNo,
    dir: FrameNo)
    requires Kept(m, bits, m1, bits1, pd) && Building(m0, bits0, m, bits, pd, dir)
    ensures m1[dir] == m[dir]
  {
    assert Structure(m, pd, WindowTable(m, pd));
  }

  lemma EntryShape(
    m0: Memory, bits0: seq<bool>, m: Memory, bits: seq<bool>, m1: Memory, bits1: seq<bool>, pd: FrameNo, dir: FrameNo,
    promoted: set<Index>, marks: set<Page>, p: Page, copy: FrameNo, pde: Word)
    requires Shaped(m0, bits0, m, bits, pd, dir, promoted, marks) && Kept(m, bits, m1, bits1, pd)
    requires Building(m0, bits0, m1, bits1, pd, dir)
    requires Private(m1, pd, bits0, bits1, copy) && !bits[copy] && p.slot >= KERNEL_SLOT
    requires p.slot < RECURSIVE ==> m1[pd][p.slot].present
    requires p.slot < RECURSIVE && p.slot != WINDOW_SLOT ==> m1[copy] == m1[m1[pd][p.slot].frame]
    requires pde.present && pde.rw && pde.user && pde.frame == copy
    ensures Image(Poke(m1, dir, p.slot, pde), bits0, bits1, pd, dir, promoted + {p.slot}, set q | q in marks && q.slot != p.slot)
  {
    ImageKept(m, bits0, bits, m1, bits1, pd, dir, promoted, marks);
    forall s: Index | s in promoted ensures m1[dir][s].frame != copy {
      assert PromotedSlot(m, bits0, bits, pd, dir, s, marks);
    }
    ImagePromote(m1, bits0, bits1, pd, dir, promoted, marks, p.slot, pde, set q | q in marks && q.slot != p.slot);
  }

  /** The end of map_entry_if_kernel: show the copy again and set the entry's user bit in it. */
  method RemapAndMark(
    k: Machine, ghost m0: Memory, ghost bits0: seq<bool>, dir: FrameNo, p: Page, copy: FrameNo,
    ghost promoted: set<Index>, ghost marks: set<Page>) returns (r: Result<bool>)
    requires k.Valid() && Shaped(m0, bits0, k.mem, k.pmm.Used(), k.cr3, dir, promoted, marks)
    requires p.slot in promoted && k.mem[dir][p.slot].frame == copy
    modifies k`mem, k.pmm`freePages, k.pmm.bitmap
    ensures k.Valid()
    ensures r == Returned(false) ==> Aftermath(m0, bits0, k.mem, k.pmm.Used(), k.cr3)
    ensures r == Returned(true) ==>
      && Shaped(m0, bits0, k.mem, k.pmm.Used(), k.cr3, dir, promoted, marks + {p})
      && k.mem[dir] == old(k.mem)[dir]
    ensures r == Returned(true) && k.pmm.Used() == old(k.pmm.Used())
  {
    hide CopyOf, Aftermath, Taken, Image, Since, PromotedSlot;
    BuildingAftermath(m0, bits0, k.mem, k.pmm.Used(), k.cr3, dir);
    NoneTaken(k.pmm.Used());
    ghost var m, bits := k.mem, k.pmm.Used();
    FixedAddresses();
    r := Remap(k, PT_TMP, copy);
    if r != Returned(true) { return; }
    ghost var m1 := k.mem;
    BuildingRemapped(m0, bits0, m, bits, m1, k.pmm.Used(), k.cr3, dir, 1, copy);
    MarkedShape(m0, bits0, m, bits, m1, k.cr3, dir, promoted, marks, p, copy);
    var marked := MarkEntry(k, p.index);
  }

  lemma MarkedShape(
    m0: Memory, bits0: seq<bool>, m: Memory, bits: seq<bool>, m1: Memory, pd: FrameNo, dir: FrameNo,
    promoted: set<Index>, marks: set<Page>, p: Page, copy: FrameNo)
    requires Shaped(m0, bits0, m, bits, pd, dir, promoted, marks) && Kept(m, bits, m1, bits, pd)
    requires Building(m0, bits0, m1, bits, pd, dir)
    requires p.slot in promoted && m[dir][p.slot].frame == copy
    ensures var m2 := Poke(m1, copy, p.index, Marked(m1[copy][p.index]));
      && Shaped(m0, bits0, m2, bits, pd, dir, promoted, marks + {p}) && m2[dir] == m[dir]
      && Wf(m2, pd) && StructureUsed(m2, pd, bits)
  {
    hide CopyOf;
    ImageKept(m, bits0, bits, m1, bits, pd, dir, promoted, marks);
    assert PromotedSlot(m1, bits0, bits, pd, dir, p.slot, marks);
    BuildingWrite(m0, bits0, m1, bits, pd, dir, copy, m1[copy][p.index := Marked(m1[copy][p.index])]);
    ImageMark(m1, bits0, bits, pd, dir, promoted, marks, p.slot, p.index);
  }
}
