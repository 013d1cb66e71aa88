/** Building the address space of a user process, through temporary windows of the current one. */
module UserSpace {
  import opened Base
  import opened PageBits
  import opened Paging
  import opened Pmm
  import opened Vmm

  const WINDOW_SLOT: Index := 896
  const PD_TMP: Vaddr := 0xE000_0000       // KPROCESS_PD_TMP_VADDR
  const PT_TMP: Vaddr := 0xE000_1000       // KPROCESS_PT_TMP_VADDR
  const STACK_TMP: Vaddr := 0xE000_2000    // KPROCESS_STACK_TMP_VADDR

  const PD_WINDOW := Page(WINDOW_SLOT, 0)
  const PT_WINDOW := Page(WINDOW_SLOT, 1)
  const STACK_WINDOW := Page(WINDOW_SLOT, 2)

  const STACK_TOP := 0xBFFF_E000
  const STACK_PAGES := 4
  const STACK_BOTTOM := STACK_TOP - STACK_PAGES * PAGE_SIZE
  const STACK_SLOT: Index := 767
  const STACK_INDEX: Index := 0x3FA

  /** Addresses fixed by the linker: ktask_stubs and __syscall__. */
  datatype Layout = Layout(stubs: Vaddr, syscall: Vaddr)

  lemma FixedAddresses()
    ensures PageOf(PD_TMP) == PD_WINDOW && PageOf(PT_TMP) == PT_WINDOW && PageOf(STACK_TMP) == STACK_WINDOW
    ensures forall i: nat :: i < STACK_PAGES ==> PageOf(STACK_BOTTOM + i * PAGE_SIZE) == Page(STACK_SLOT, STACK_INDEX + i)
  {
  }

  // ---- Pages taken one at a time ----

  /** The lowest free page, or the length when there is none. */
  function LowestFree(bits: seq<bool>, from: nat): (t: nat)
    requires from <= |bits|
    ensures from <= t <= |bits| && (t < |bits| ==> !bits[t]) && forall i :: from <= i < t ==> bits[i]
    decreases |bits| - from
  {
    if from == |bits| || !bits[from] then from else LowestFree(bits, from + 1)
  }

  /** The bitmap once the lowest `n` free pages have been taken; None when there are fewer. */
  function Taken(bits: seq<bool>, n: nat): (after: Option<seq<bool>>)
    ensures after.Some? ==> |after.value| == |bits|
    decreases n
  {
    if n == 0 then Some(bits)
    else
      var t := LowestFree(bits, 0);
      if t == |bits| then None else Taken(bits[t := true], n - 1)
  }

  lemma {:induction false} TakenTwice(bits: seq<bool>, a: nat, b: nat)
    ensures Taken(bits, a + b) == match Taken(bits, a) case None => None case Some(after) => Taken(after, b)
    decreases a
  {
    if a > 0 && LowestFree(bits, 0) < |bits| { TakenTwice(bits[LowestFree(bits, 0) := true], a - 1, b); }
  }

  lemma NoneTaken(bits: seq<bool>)
    ensures Taken(bits, 0) == Some(bits)
  {
  }

  lemma TakenOne(bits: seq<bool>)
    ensures Taken(bits, 1) == None <==> UsedRun(bits, 0, |bits|)
    ensures forall t: nat :: LeftmostRun(bits, t, 1) ==> t < |bits| && Taken(bits, 1) == Some(bits[t := true])
  {
    var u := LowestFree(bits, 0);
    if u < |bits| { assert Taken(bits[u := true], 0) == Some(bits[u := true]) && !bits[u]; }
    forall t: nat | LeftmostRun(bits, t, 1) ensures t < |bits| && Taken(bits, 1) == Some(bits[t := true]) {
      assert ClearRun(bits, t, 1) && !bits[t];
      if u < t { assert ClearRun(bits, u, 1); }
    }
  }

  lemma {:induction false} TakenCount(bits: seq<bool>, n: nat)
    requires Taken(bits, n).Some?
    ensures ClearCount(Taken(bits, n).value) == ClearCount(bits) - n
    decreases n
  {
    hide ClearCount;
    if n > 0 {
      var t := LowestFree(bits, 0);
      ClearCountUpdate(bits, t, true);
      TakenCount(bits[t := true], n - 1);
    }
  }

  /** A step that needs `n` pages succeeds exactly if there are so many; it never halts. */
  ghost predicate Supplied(before: seq<bool>, n: nat, r: Result<bool>, after: seq<bool>) {
    r == Returned(Taken(before, n).Some?) && (r == Returned(true) ==> Taken(before, n) == Some(after))
  }

  /** The same for a step that first looks at a page of the current address space: without its table the look faults. */
  ghost predicate SuppliedIfMapped(
    m: Memory, pd: FrameNo, p: Page, before: seq<bool>, n: nat, r: Result<bool>, after: seq<bool>)
  {
    if !m[pd][p.slot].present then r == Halted
    else if Lookup(m, pd, p).None? then r == Returned(false)
    else Supplied(before, n, r, after)
  }

  // ---- The window table ----

  function WindowTable(m: Memory, pd: FrameNo): FrameNo {
    m[pd][WINDOW_SLOT].frame
  }

  /** An entry that lets the kernel write, and user code nothing. */
  predicate KernelEntry(w: Word) { w.present && w.rw && !w.user }

  /** Window `i` now shows frame `f`, to the kernel alone; nothing else changed but, possibly, a fresh window table. */
  ghost predicate Remapped(
    m: Memory, bits: seq<bool>, m': Memory, bits': seq<bool>, pd: FrameNo, i: Index, f: FrameNo)
  {
    var table := WindowTable(m', pd);
    && Wf(m', pd) && StructureUsed(m', pd, bits') && Grown(bits, bits')
    && m'[pd][WINDOW_SLOT].present && m'[pd] == m[pd][WINDOW_SLOT := m'[pd][WINDOW_SLOT]]
    && KernelEntry(m'[table][i]) && m'[table][i].frame == f
    && (forall g: FrameNo :: g != pd && g != table ==> m'[g] == m[g])
    && if m[pd][WINDOW_SLOT].present then
         bits' == bits && m'[pd] == m[pd] && m'[table] == m[table][i := m'[table][i]]
       else
         && table < |bits| && !bits[table] && bits' == bits[table := true] && m'[table] == ZERO_FRAME[i := m'[table][i]]
         && KernelEntry(m'[pd][WINDOW_SLOT])
  }

  /** The two calls kvmm_unmap_page, kvmm_map_page that point a window at a frame. */
  method Remap(k: Machine, va: Vaddr, f: FrameNo) returns (r: Result<bool>)
    requires k.Valid() && va in {PD_TMP, PT_TMP, STACK_TMP}
    requires TableVisible(k.mem, k.cr3, k.pmm.Used(), WINDOW_SLOT)
    modifies k`mem, k.pmm`freePages, k.pmm.bitmap
    ensures k.Valid()
    ensures r == Returned(true) || (r == Returned(false) && !old(k.mem)[k.cr3][WINDOW_SLOT].present
                                    && k.mem == old(k.mem) && k.pmm.Used() == old(k.pmm.Used()))
    ensures r == Returned(true) ==>
      Remapped(old(k.mem), old(k.pmm.Used()), k.mem, k.pmm.Used(), k.cr3, PageOf(va).index, f)
    ensures Supplied(old(k.pmm.Used()), if old(k.mem)[k.cr3][WINDOW_SLOT].present then 0 else 1, r, k.pmm.Used())
  {
    FixedAddresses();
    ghost var m, bits, pd := k.mem, k.pmm.Used(), k.cr3;
    TakenOne(bits);
    var unmapped := k.UnmapPage(va);
    ghost var m1 := k.mem;
    UnmapMeaning(m, pd, bits, va, unmapped, m1);
    r := k.MapPage(va, f * PAGE_SIZE, KERNEL_RW);
    RemapMeaning(m, pd, bits, va, f, unmapped, m1, r, k.mem, k.pmm.Used());
  }

  lemma RemapMeaning(
    m: Memory, pd: FrameNo, bits: seq<bool>, va: Vaddr, f: FrameNo, unmapped: Result<bool>, m1: Memory,
    r: Result<bool>, m2: Memory, bits2: seq<bool>)
    requires Wf(m, pd) && StructureUsed(m, pd, bits) && va in {PD_TMP, PT_TMP, STACK_TMP}
    requires TableVisible(m, pd, bits, WINDOW_SLOT) && Grown(bits, bits2)
    requires UnmapOutcome(m, pd, va, unmapped, m1)
    requires MapOutcome(m1, pd, bits, va, f * PAGE_SIZE, KERNEL_RW, r, m2, bits2)
    ensures r == Returned(true) || (r == Returned(false) && !m[pd][WINDOW_SLOT].present && m2 == m && bits2 == bits)
    ensures r == Returned(true) ==> Remapped(m, bits, m2, bits2, pd, PageOf(va).index, f)
    ensures Wf(m2, pd) && StructureUsed(m2, pd, bits2)
    ensures r == Returned(false) ==> UsedRun(bits, 0, |bits|)
    ensures r == Returned(true) && !m[pd][WINDOW_SLOT].present ==>
      exists t: FrameNo :: LeftmostRun(bits, t, 1) && bits2 == bits[t := true]
  {
    FixedAddresses();
    UnmapMeaning(m, pd, bits, va, unmapped, m1);
    MapMeaning(m1, pd, bits, va, f * PAGE_SIZE, KERNEL_RW, r, m2, bits2);
    if r == Returned(true) {
      if m[pd][WINDOW_SLOT].present {
        RemapInTable(m, pd, bits, va, f, m1, m2, bits2);
      } else {
        RemapWithNewTable(m, pd, bits, va, f, m2, bits2);
      }
    }
  }

  lemma RemapInTable(
    m: Memory, pd: FrameNo, bits: seq<bool>, va: Vaddr, f: FrameNo, m1: Memory, m2: Memory, bits2: seq<bool>)
    requires Wf(m, pd) && m[pd][WINDOW_SLOT].present && va in {PD_TMP, PT_TMP, STACK_TMP}
    requires m1 == m || m1 == Poke(m, WindowTable(m, pd), PageOf(va).index, ZERO)
    requires Lookup(m1, pd, PageOf(va)).None?
    requires MapOutcome(m1, pd, bits, va, f * PAGE_SIZE, KERNEL_RW, Returned(true), m2, bits2)
    requires Wf(m2, pd) && StructureUsed(m2, pd, bits2)
    ensures Remapped(m, bits, m2, bits2, pd, PageOf(va).index, f)
  {
    FixedAddresses();
    var table, i := WindowTable(m, pd), PageOf(va).index;
    assert table != pd;
    assert m2 == Poke(m1, table, i, m2[table][i]);
    assert m2[table] == m[table][i := m2[table][i]];
  }

  lemma RemapWithNewTable(m: Memory, pd: FrameNo, bits: seq<bool>, va: Vaddr, f: FrameNo, m2: Memory, bits2: seq<bool>)
    requires Wf(m, pd) && StructureUsed(m, pd, bits) && !m[pd][WINDOW_SLOT].present && va in {PD_TMP, PT_TMP, STACK_TMP}
    requires TableVisible(m, pd, bits, WINDOW_SLOT) && Grown(bits, bits2)
    requires MapOutcome(m, pd, bits, va, f * PAGE_SIZE, KERNEL_RW, Returned(true), m2, bits2)
    requires Wf(m2, pd) && StructureUsed(m2, pd, bits2)
    ensures Remapped(m, bits, m2, bits2, pd, PageOf(va).index, f)
  {
    hide MapOutcome, UsedRun, TableVisible, StructureUsed, Lookup, Wf;
    FixedAddresses();
    assert !UsedRun(bits, 0, |bits|) by { MapMeaning(m, pd, bits, va, f * PAGE_SIZE, KERNEL_RW, Returned(true), m2, bits2); }
    var t := FilledNewTable(m, pd, bits, va, f * PAGE_SIZE, KERNEL_RW, Returned(true), m2, bits2);
    DirectoryIsUsed(m, pd, bits);
    NewWindow(m, bits, m2, bits2, pd, PageOf(va).index, f, t);
  }

  lemma DirectoryIsUsed(m: Memory, pd: FrameNo, bits: seq<bool>)
    requires StructureUsed(m, pd, bits)
    ensures pd < |bits| && bits[pd]
  {
    assert Structure(m, pd, pd);
  }

  lemma NewWindow(
    m: Memory, bits: seq<bool>, m2: Memory, bits2: seq<bool>, pd: FrameNo, i: Index, f: FrameNo, t: FrameNo)
    requires Wf(m2, pd) && StructureUsed(m2, pd, bits2) && Grown(bits, bits2) && !m[pd][WINDOW_SLOT].present
    requires t < |bits| && !bits[t] && bits2 == bits[t := true] && t != pd
    requires m2 == WithNewTable(
      m, pd, Page(WINDOW_SLOT, i), WithFlags(m[pd][WINDOW_SLOT], KERNEL_RW, t), WithFlags(ZERO, KERNEL_RW, f))
    ensures Remapped(m, bits, m2, bits2, pd, i, f)
  {
    hide Wf, StructureUsed, Grown;
  }

  // ---- What the construction keeps ----

  /**
   * Once the window table exists, a step changes only frames that were free, and window entries 0..2 to kernel entries.
   */
  ghost predicate Kept(m: Memory, bits: seq<bool>, m': Memory, bits': seq<bool>, pd: FrameNo) {
    && Grown(bits, bits') && m'[pd] == m[pd]
    && (forall g: FrameNo :: g < |bits| && bits[g] && g != WindowTable(m, pd) ==> m'[g] == m[g])
    && (forall i: Index :: m'[WindowTable(m, pd)][i] == m[WindowTable(m, pd)][i]
                           || (i <= 2 && KernelEntry(m'[WindowTable(m, pd)][i])))
  }

  /** The same, measured from the start of the call, when the window table may not exist yet. */
  ghost predicate Since(m0: Memory, bits0: seq<bool>, m: Memory, bits: seq<bool>, pd: FrameNo) {
    var table := WindowTable(m, pd);
    && Grown(bits0, bits) && m[pd] == m0[pd][WINDOW_SLOT := m[pd][WINDOW_SLOT]]
    && (m0[pd][WINDOW_SLOT].present ==> m[pd] == m0[pd])
    && (!m0[pd][WINDOW_SLOT].present ==> table < |bits0| && !bits0[table] && KernelEntry(m[pd][WINDOW_SLOT]))
    && (forall g: FrameNo :: g < |bits0| && bits0[g] && g != pd && g != table ==> m[g] == m0[g])
    && (forall i: Index :: m[table][i] == (if m0[pd][WINDOW_SLOT].present then m0[table][i] else ZERO)
                           || (i <= 2 && KernelEntry(m[table][i])))
  }

  /** What holds of the current address space whether or not the call succeeds. */
  ghost predicate Aftermath(m0: Memory, bits0: seq<bool>, m: Memory, bits: seq<bool>, pd: FrameNo) {
    Grown(bits0, bits) && (m == m0 || Since(m0, bits0, m, bits, pd))
  }

  ghost predicate Steady(m: Memory, pd: FrameNo, bits: seq<bool>) {
    Wf(m, pd) && StructureUsed(m, pd, bits) && m[pd][WINDOW_SLOT].present
  }

  /** A frame allocated since the start that is no part of the current directory's structure. */
  ghost predicate Private(m: Memory, pd: FrameNo, bits0: seq<bool>, bits: seq<bool>, f: FrameNo) {
    f < |bits0| == |bits| && !bits0[f] && bits[f] && !Structure(m, pd, f)
  }

  /** The state while directory `dir` is being filled. */
  ghost predicate Building(m0: Memory, bits0: seq<bool>, m: Memory, bits: seq<bool>, pd: FrameNo, dir: FrameNo) {
    && Steady(m, pd, bits) && Since(m0, bits0, m, bits, pd) && Private(m, pd, bits0, bits, dir)
    && Lookup(m, pd, PD_WINDOW).Some? && Lookup(m, pd, PD_WINDOW).value.frame == dir && KernelWindow(m, pd, 0)
  }

  /** Window `i` is the kernel's alone. */
  ghost predicate KernelWindow(m: Memory, pd: FrameNo, i: Index) {
    KernelEntry(m[WindowTable(m, pd)][i])
  }

  lemma BuildingAftermath(m0: Memory, bits0: seq<bool>, m: Memory, bits: seq<bool>, pd: FrameNo, dir: FrameNo)
    requires Building(m0, bits0, m, bits, pd, dir)
    ensures Aftermath(m0, bits0, m, bits, pd)
  {
  }

  lemma SinceKept(m0: Memory, bits0: seq<bool>, m: Memory, bits: seq<bool>, m': Memory, bits': seq<bool>, pd: FrameNo)
    requires Since(m0, bits0, m, bits, pd) && Kept(m, bits, m', bits', pd)
    ensures Since(m0, bits0, m', bits', pd)
  {
    var table := WindowTable(m, pd);
    forall i: Index
      ensures m'[table][i] == (if m0[pd][WINDOW_SLOT].present then m0[table][i] else ZERO) || (i <= 2 && KernelEntry(m'[table][i]))
    {
      assert m'[table][i] == m[table][i] || (i <= 2 && KernelEntry(m'[table][i]));
    }
  }

  /** Outside the windows and the recursive slot the current space is what it was at the start. */
  lemma CodeStays(m0: Memory, bits0: seq<bool>, m: Memory, bits: seq<bool>, pd: FrameNo, dir: FrameNo, p: Page)
    requires Wf(m0, pd) && StructureUsed(m0, pd, bits0) && Building(m0, bits0, m, bits, pd, dir)
    requires p.slot != WINDOW_SLOT && p.slot != RECURSIVE
    ensures m[pd][p.slot] == m0[pd][p.slot] && Lookup(m, pd, p) == Lookup(m0, pd, p)
  {
    if m0[pd][p.slot].present {
      assert Structure(m0, pd, m0[pd][p.slot].frame);
      assert m0[pd][WINDOW_SLOT].present ==> m0[pd][p.slot].frame != WindowTable(m, pd);
    }
  }

  /** Pointing window `i` (not the directory's) at a frame keeps the construction going. */
  lemma BuildingRemapped(
    m0: Memory, bits0: seq<bool>, m: Memory, bits: seq<bool>, m': Memory, bits': seq<bool>, pd: FrameNo, dir: FrameNo,
    i: Index, f: FrameNo)
    requires Building(m0, bits0, m, bits, pd, dir) && 0 < i <= 2
    requires Remapped(m, bits, m', bits', pd, i, f)
    ensures bits' == bits && Kept(m, bits, m', bits', pd) && Building(m0, bits0, m', bits', pd, dir)
    ensures Lookup(m', pd, Page(WINDOW_SLOT, i)).Some? && Lookup(m', pd, Page(WINDOW_SLOT, i)).value.frame == f
    ensures KernelWindow(m', pd, i)
    ensures forall g: FrameNo :: Structure(m', pd, g) <==> Structure(m, pd, g)
  {
    SameDirectory(m, m', pd);
    assert m'[WindowTable(m, pd)][0] == m[WindowTable(m, pd)][0];
    SinceKept(m0, bits0, m, bits, m', bits', pd);
  }

  /** So does writing a private frame through a window. */
  lemma BuildingWrite(
    m0: Memory, bits0: seq<bool>, m: Memory, bits: seq<bool>, pd: FrameNo, dir: FrameNo, f: FrameNo, content: Frame)
    requires Building(m0, bits0, m, bits, pd, dir) && Private(m, pd, bits0, bits, f)
    ensures Building(m0, bits0, m[f := content], bits, pd, dir) && SameView(m, m[f := content], pd)
    ensures m[f := content][pd] == m[pd]
    ensures forall g: FrameNo :: Structure(m[f := content], pd, g) <==> Structure(m, pd, g)
    ensures WindowTable(m, pd) != f
  {
    OutsideWrite(m, pd, f, content);
    assert Structure(m, pd, WindowTable(m, pd));
  }

  /** So does taking free pages. */
  lemma BuildingAlloc(
    m0: Memory, bits0: seq<bool>, m: Memory, bits: seq<bool>, bits': seq<bool>, pd: FrameNo, dir: FrameNo)
    requires Building(m0, bits0, m, bits, pd, dir) && Grown(bits, bits')
    ensures Kept(m, bits, m, bits', pd) && Building(m0, bits0, m, bits', pd, dir)
    ensures forall f: FrameNo :: f < |bits| && !bits[f] && bits'[f] ==> Private(m, pd, bits0, bits', f)
  {
  }

  // ---- The directory under construction ----

  /** Page-table entry with the user bit set. */
  function Marked(w: Word): Word {
    Word(w.present, w.rw, true, w.rest, w.frame)
  }

  /** `copy` is the current table of `slot` with the marked pages made user-accessible. */
  ghost predicate CopyOf(m: Memory, pd: FrameNo, slot: Index, copy: FrameNo, marks: set<Page>) {
    forall i: Index ::
      m[copy][i] == var w := m[m[pd][slot].frame][i]; if Page(slot, i) in marks then Marked(w) else w
  }

  /** What the recursive slot of directory `dir` holds: the directory itself, for the kernel alone. */
  function SelfEntry(dir: FrameNo): Word { Word(true, true, false, 0, dir) }

  /**
   * The kernel half of directory `dir`: the current directory's entries, except that each slot in `promoted`
   * points at a private user-accessible copy of its table. The copies of the recursive and window slots are not described.
   */
  ghost predicate Image(
    m: Memory, bits0: seq<bool>, bits: seq<bool>, pd: FrameNo, dir: FrameNo, promoted: set<Index>, marks: set<Page>)
  {
    && (RECURSIVE !in promoted ==> m[dir][RECURSIVE] == SelfEntry(dir))
    && (forall k: Index :: KERNEL_SLOT <= k < RECURSIVE && k !in promoted ==> m[dir][k] == m[pd][k])
    && (forall k: Index :: k < STACK_SLOT ==> m[dir][k] == ZERO)
    && (forall k: Index :: k in promoted ==> PromotedSlot(m, bits0, bits, pd, dir, k, marks))
    && (forall j: Index, k: Index :: j in promoted && k in promoted && j != k ==> m[dir][j].frame != m[dir][k].frame)
  }

  ghost predicate PromotedSlot(
    m: Memory, bits0: seq<bool>, bits: seq<bool>, pd: FrameNo, dir: FrameNo, k: Index, marks: set<Page>)
  {
    var pde := m[dir][k];
    && k >= KERNEL_SLOT && pde.present && pde.rw && pde.user
    && Private(m, pd, bits0, bits, pde.frame) && pde.frame != dir
    && (k < RECURSIVE ==> m[pd][k].present)
    && (k < RECURSIVE && k != WINDOW_SLOT ==> CopyOf(m, pd, k, pde.frame, marks))
  }

  /** Changing the window table and frames the image does not refer to leaves it as it is. */
  lemma ImageFramed(
    m: Memory, bits0: seq<bool>, bits: seq<bool>, m': Memory, bits': seq<bool>, pd: FrameNo, dir: FrameNo,
    promoted: set<Index>, marks: set<Page>)
    requires Image(m, bits0, bits, pd, dir, promoted, marks) && Steady(m, pd, bits)
    requires Grown(bits, bits') && m'[pd] == m[pd] && m'[dir] == m[dir]
    requires forall k: Index :: k in promoted ==> m'[m[dir][k].frame] == m[m[dir][k].frame]
    requires forall k: Index :: k < RECURSIVE && k != WINDOW_SLOT && m[pd][k].present ==> m'[m[pd][k].frame] == m[m[pd][k].frame]
    ensures Image(m', bits0, bits', pd, dir, promoted, marks)
  {
    SameDirectory(m, m', pd);
    forall k: Index | k in promoted ensures PromotedSlot(m', bits0, bits', pd, dir, k, marks) {
      assert PromotedSlot(m, bits0, bits, pd, dir, k, marks);
    }
  }

  lemma ImageKept(
    m: Memory, bits0: seq<bool>, bits: seq<bool>, m': Memory, bits': seq<bool>, pd: FrameNo, dir: FrameNo,
    promoted: set<Index>, marks: set<Page>)
    requires Image(m, bits0, bits, pd, dir, promoted, marks) && Steady(m, pd, bits) && Private(m, pd, bits0, bits, dir)
    requires Kept(m, bits, m', bits', pd)
    ensures Image(m', bits0, bits', pd, dir, promoted, marks)
  {
    var table := WindowTable(m, pd);
    assert Structure(m, pd, table);
    forall k: Index | k in promoted ensures m'[m[dir][k].frame] == m[m[dir][k].frame] {
      assert PromotedSlot(m, bits0, bits, pd, dir, k, marks);
    }
    forall k: Index | k < RECURSIVE && k != WINDOW_SLOT && m[pd][k].present
      ensures m'[m[pd][k].frame] == m[m[pd][k].frame]
    {
      assert Structure(m, pd, m[pd][k].frame);
    }
    ImageFramed(m, bits0, bits, m', bits', pd, dir, promoted, marks);
  }

  /** Writing a private frame the directory does not use. */
  lemma ImageOther(
    m: Memory, bits0: seq<bool>, bits: seq<bool>, pd: FrameNo, dir: FrameNo, promoted: set<Index>, marks: set<Page>,
    f: FrameNo, content: Frame)
    requires Image(m, bits0, bits, pd, dir, promoted, marks) && Steady(m, pd, bits) && Private(m, pd, bits0, bits, f)
    requires f != dir && forall k: Index :: k in promoted ==> m[dir][k].frame != f
    ensures Image(m[f := content], bits0, bits, pd, dir, promoted, marks)
  {
    forall k: Index | k < RECURSIVE && k != WINDOW_SLOT && m[pd][k].present
      ensures m[f := content][m[pd][k].frame] == m[m[pd][k].frame]
    {
      assert Structure(m, pd, m[pd][k].frame);
    }
    ImageFramed(m, bits0, bits, m[f := content], bits, pd, dir, promoted, marks);
  }

  /** The pages of other slots keep their marks. */
  ghost predicate SameMarksOutside(marks: set<Page>, marks': set<Page>, slot: Index) {
    forall q: Page :: q.slot != slot ==> (q in marks <==> q in marks')
  }

  /** Pointing a slot at a fresh copy. */
  lemma ImagePromote(
    m: Memory, bits0: seq<bool>, bits: seq<bool>, pd: FrameNo, dir: FrameNo, promoted: set<Index>, marks: set<Page>,
    slot: Index, pde: Word, marks': set<Page>)
    requires Image(m, bits0, bits, pd, dir, promoted, marks) && Private(m, pd, bits0, bits, dir)
    requires Steady(m, pd, bits) && slot >= KERNEL_SLOT && pde.present && pde.rw && pde.user
    requires Private(m, pd, bits0, bits, pde.frame) && pde.frame != dir
    requires forall k: Index :: k in promoted ==> m[dir][k].frame != pde.frame
    requires slot < RECURSIVE ==> m[pd][slot].present
    requires slot < RECURSIVE && slot != WINDOW_SLOT ==> CopyOf(m, pd, slot, pde.frame, marks')
    requires SameMarksOutside(marks, marks', slot)
    ensures Image(Poke(m, dir, slot, pde), bits0, bits, pd, dir, promoted + {slot}, marks')
  {
    var m' := Poke(m, dir, slot, pde);
    SameDirectory(m, m', pd);
    forall k: Index | k in promoted + {slot} ensures PromotedSlot(m', bits0, bits, pd, dir, k, marks') {
      if k != slot {
        assert PromotedSlot(m, bits0, bits, pd, dir, k, marks);
      }
      if k < RECURSIVE && k != WINDOW_SLOT {
        assert m[pd][k].present && Structure(m, pd, m[pd][k].frame);
        assert m'[m[pd][k].frame] == m[m[pd][k].frame];
      }
    }
  }

  /** Setting the user bit of one entry of a promoted slot's copy. */
  lemma ImageMark(
    m: Memory, bits0: seq<bool>, bits: seq<bool>, pd: FrameNo, dir: FrameNo, promoted: set<Index>, marks: set<Page>,
    slot: Index, i: Index)
    requires Image(m, bits0, bits, pd, dir, promoted, marks) && Private(m, pd, bits0, bits, dir)
    requires Steady(m, pd, bits) && slot in promoted
    ensures Image(Poke(m, m[dir][slot].frame, i, Marked(m[m[dir][slot].frame][i])), bits0, bits, pd, dir, promoted, marks + {Page(slot, i)})
  {
    assert PromotedSlot(m, bits0, bits, pd, dir, slot, marks);
    var copy := m[dir][slot].frame;
    var m' := Poke(m, copy, i, Marked(m[copy][i]));
    SameDirectory(m, m', pd);
    forall k: Index | k in promoted ensures PromotedSlot(m', bits0, bits, pd, dir, k, marks + {Page(slot, i)}) {
      assert PromotedSlot(m, bits0, bits, pd, dir, k, marks);
      if k < RECURSIVE && k != WINDOW_SLOT {
        assert Structure(m, pd, m[pd][k].frame);
        assert m'[m[pd][k].frame] == m[m[pd][k].frame];
      }
    }
  }
}
