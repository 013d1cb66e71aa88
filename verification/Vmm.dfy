/** Mapping and unmapping pages of the current address space, through the recursive slot. */
module Vmm {
  import opened Base
  import opened PageBits
  import opened Paging
  import opened Pmm

  datatype Flags = Flags(present: bool, rw: bool, user: bool)

  const KERNEL_RW := Flags(true, true, false)

  function WithFlags(w: Word, flags: Flags, frame: FrameNo): Word {
    Word(flags.present, flags.rw, flags.user, w.rest, frame)
  }

  /** PHYS_TO_VIRT of a frame: where the kernel expects to see it. */
  function PhysToVirt(f: FrameNo): Page {
    PageOf(Wrap32(f * PAGE_SIZE + 0xC000_0000))
  }

  predicate DirectMapped(m: Memory, pd: FrameNo, f: FrameNo) {
    Lookup(m, pd, PhysToVirt(f)).Some? && Lookup(m, pd, PhysToVirt(f)).value.frame == f
  }

  /** The directory and its tables are pages the allocator holds as used. */
  ghost predicate StructureUsed(m: Memory, pd: FrameNo, bits: seq<bool>) {
    forall f: FrameNo :: Structure(m, pd, f) ==> f < |bits| && bits[f]
  }

  /** What one kvmm_map_page call answers and does. */
  ghost predicate MapOutcome(
    m: Memory, pd: FrameNo, bits: seq<bool>, va: Vaddr, pa: Vaddr, flags: Flags,
    r: Result<bool>, m': Memory, bits': seq<bool>)
  {
    var p, frame := PageOf(va), pa / PAGE_SIZE;
    var pde := m[pd][p.slot];
    if va % PAGE_SIZE != 0 || pa % PAGE_SIZE != 0 then
      r == Returned(false) && m' == m && bits' == bits
    else if pde.present then
      && bits' == bits
      && if Lookup(m, pd, p).Some? then
           r == Returned(false) && m' == m
         else
           r == Returned(true) && m' == Poke(m, pde.frame, p.index, WithFlags(m[pde.frame][p.index], flags, frame))
    else if UsedRun(bits, 0, |bits|) then
      r == Returned(false) && m' == m && bits' == bits
    else
      SomeNewTable(m, pd, bits, p, frame, flags, r, m', bits')
  }

  ghost predicate SomeNewTable(
    m: Memory, pd: FrameNo, bits: seq<bool>, p: Page, frame: FrameNo, flags: Flags,
    r: Result<bool>, m': Memory, bits': seq<bool>)
  {
    exists t: FrameNo :: NewTableOutcome(m, pd, bits, p, frame, flags, t, r, m', bits')
  }

  /**
   * The case that first installs a table in frame `t`. The zeroes go to whatever frame PHYS_TO_VIRT(t) shows. When that is
   * the directory itself, the store of the new entry faults: the recursive slot is gone.
   */
  ghost predicate NewTableOutcome(
    m: Memory, pd: FrameNo, bits: seq<bool>, p: Page, frame: FrameNo, flags: Flags, t: FrameNo,
    r: Result<bool>, m': Memory, bits': seq<bool>)
  {
    && LeftmostRun(bits, t, 1) && bits' == bits[t := true]
    && match Lookup(m, pd, PhysToVirt(t))
       case None => r == Halted && m' == m
       case Some(shown) =>
         if shown.frame == pd then r == Halted && m' == m[pd := ZERO_FRAME]
         else FillOutcome(Installed(m, pd, p.slot, flags, t, shown.frame), pd, p, frame, flags, r, m')
  }

  /** Slot `slot` points at frame `t` after frame `shown` has been zeroed. */
  function Installed(m: Memory, pd: FrameNo, slot: Index, flags: Flags, t: FrameNo, shown: FrameNo): Memory {
    Poke(m[shown := ZERO_FRAME], pd, slot, WithFlags(m[pd][slot], flags, t))
  }

  ghost predicate FillOutcome(
    m: Memory, pd: FrameNo, p: Page, frame: FrameNo, flags: Flags, r: Result<bool>, m': Memory)
  {
    match Lookup(m, pd, TablePage(p.slot))
    case None => r == Halted && m' == m
    case Some(table) =>
      var word := m[table.frame][p.index];
      if word.present then r == Returned(false) && m' == m
      else r == Returned(true) && m' == Poke(m, table.frame, p.index, WithFlags(word, flags, frame))
  }

  /** `pde` points slot `p.slot` at a zeroed frame that holds just `pte`. */
  function WithNewTable(m: Memory, pd: FrameNo, p: Page, pde: Word, pte: Word): Memory {
    m[pde.frame := ZERO_FRAME[p.index := pte]][pd := m[pd][p.slot := pde]]
  }

  ghost predicate UnmapOutcome(m: Memory, pd: FrameNo, va: Vaddr, r: Result<bool>, m': Memory) {
    if va % PAGE_SIZE != 0 || Lookup(m, pd, PageOf(va)).None? then
      r == Returned(false) && m' == m
    else
      r == Returned(true) && m' == Poke(m, m[pd][PageOf(va).slot].frame, PageOf(va).index, ZERO)
  }

  /** Pages 0, 1, ..., i - 1 of a range have been mapped, one call of kvmm_map_page after the other. */
  ghost predicate InTurn(
    m: Memory, pd: FrameNo, bits: seq<bool>, va: Vaddr, pa: Vaddr, flags: Flags, i: nat, m': Memory, bits': seq<bool>)
  {
    if i == 0 then m' == m && bits' == bits
    else exists j: nat, m1: Memory, bits1: seq<bool> ::
      && j == i - 1 && InTurn(m, pd, bits, va, pa, flags, j, m1, bits1)
      && MapOutcome(m1, pd, bits1, Wrap32(va + PAGE_SIZE * j), Wrap32(pa + PAGE_SIZE * j), flags, Returned(true), m', bits')
  }

  /** kvmm_map_range: all pages in turn, or those in front of the first one whose mapping fails. */
  ghost predicate RangeRun(
    m: Memory, pd: FrameNo, bits: seq<bool>, va: Vaddr, pa: Vaddr, flags: Flags, amount: nat,
    r: Result<bool>, m': Memory, bits': seq<bool>)
  {
    if va % PAGE_SIZE != 0 || pa % PAGE_SIZE != 0 then r == Returned(false) && m' == m && bits' == bits
    else if r == Returned(true) then InTurn(m, pd, bits, va, pa, flags, amount, m', bits')
    else exists i: nat, m1: Memory, bits1: seq<bool> ::
      && i < amount && InTurn(m, pd, bits, va, pa, flags, i, m1, bits1)
      && MapOutcome(m1, pd, bits1, Wrap32(va + PAGE_SIZE * i), Wrap32(pa + PAGE_SIZE * i), flags, r, m', bits')
  }

  lemma NoTurn(m: Memory, pd: FrameNo, bits: seq<bool>, va: Vaddr, pa: Vaddr, flags: Flags)
    ensures InTurn(m, pd, bits, va, pa, flags, 0, m, bits)
  {
  }

  lemma NextTurn(
    m: Memory, pd: FrameNo, bits: seq<bool>, va: Vaddr, pa: Vaddr, flags: Flags, i: nat, amount: nat,
    m1: Memory, bits1: seq<bool>, r: Result<bool>, m2: Memory, bits2: seq<bool>)
    requires i < amount && va % PAGE_SIZE == 0 && pa % PAGE_SIZE == 0
    requires InTurn(m, pd, bits, va, pa, flags, i, m1, bits1)
    requires MapOutcome(m1, pd, bits1, Wrap32(va + PAGE_SIZE * i), Wrap32(pa + PAGE_SIZE * i), flags, r, m2, bits2)
    ensures r == Returned(true) ==> InTurn(m, pd, bits, va, pa, flags, i + 1, m2, bits2)
    ensures r != Returned(true) ==> RangeRun(m, pd, bits, va, pa, flags, amount, r, m2, bits2)
  {
    hide MapOutcome;
    var j := i + 1;
    assert j - 1 == i;
  }

  lemma Unaligned(
    m: Memory, pd: FrameNo, bits: seq<bool>, va: Vaddr, pa: Vaddr, flags: Flags, amount: nat)
    requires va % PAGE_SIZE != 0 || pa % PAGE_SIZE != 0
    ensures RangeRun(m, pd, bits, va, pa, flags, amount, Returned(false), m, bits)
    ensures InScope(va, amount, flags) ==> RangeOutcome(m, pd, bits, va, pa, flags, amount, Returned(false), m, bits)
  {
  }

  lemma AllTurns(
    m: Memory, pd: FrameNo, bits: seq<bool>, va: Vaddr, pa: Vaddr, flags: Flags, amount: nat, m': Memory,
    bits': seq<bool>)
    requires va % PAGE_SIZE == 0 && pa % PAGE_SIZE == 0 && InTurn(m, pd, bits, va, pa, flags, amount, m', bits')
    ensures RangeRun(m, pd, bits, va, pa, flags, amount, Returned(true), m', bits')
  {
    hide InTurn;
  }

  ghost predicate Grown(bits: seq<bool>, bits': seq<bool>) {
    |bits'| == |bits| && forall i :: 0 <= i < |bits| && bits[i] ==> bits'[i]
  }

  lemma SinglePage(bits: seq<bool>)
    requires |bits| > 0 && bits[0]
    ensures NoClearRun(bits, 1) <==> UsedRun(bits, 0, |bits|)
    ensures forall s: nat :: LeftmostRun(bits, s, 1) ==> 0 < s < |bits| && !bits[s] && SetRun(bits, s, 1, true) == bits[s := true]
  {
    if NoClearRun(bits, 1) {
      forall i | 0 <= i < |bits| ensures bits[i] { assert !ClearRun(bits, i, 1); }
    }
    if UsedRun(bits, 0, |bits|) {
      forall s: nat ensures !ClearRun(bits, s, 1) { if s < |bits| { assert bits[s]; } }
    }
    forall s: nat | LeftmostRun(bits, s, 1)
      ensures 0 < s < |bits| && !bits[s] && SetRun(bits, s, 1, true) == bits[s := true]
    {
      assert ClearRun(bits, s, 1) && !bits[s];
      assert SetRun(bits, s, 1, true) == bits[s := true];
    }
  }

  lemma NoRunAtZero(bits: seq<bool>, n: nat)
    requires |bits| > 0 && bits[0] && n > 0
    ensures !ClearRun(bits, 0, n)
  {
  }

  lemma NewTableMemory(m: Memory, pd: FrameNo, p: Page, pde: Word, pte: Word)
    requires pde.frame != pd
    ensures Poke(Poke(m[pde.frame := ZERO_FRAME], pd, p.slot, pde), pde.frame, p.index, pte) == WithNewTable(m, pd, p, pde, pte)
  {
  }

  class Machine {
    var mem: Memory          // physical memory
    var cr3: FrameNo         // frame of the current page directory
    const pmm: PageAllocator

    /** The allocator's part of the state: page 0 is never free. */
    ghost predicate Ready()
      reads pmm`freePages, pmm.bitmap
    {
      pmm.Valid() && |pmm.Used()| > 0 && pmm.Used()[0]
    }

    ghost predicate Valid()
      reads this`mem, this`cr3, pmm`freePages, pmm.bitmap
    {
      Ready() && Wf(mem, cr3) && StructureUsed(mem, cr3, pmm.Used())
    }

    constructor (mem: Memory, cr3: FrameNo, pmm: PageAllocator)
      ensures this.mem == mem && this.cr3 == cr3 && this.pmm == pmm
    {
      this.mem, this.cr3, this.pmm := mem, cr3, pmm;
    }

    // ---- Accesses by virtual address: None is a page fault ----

    method Load(page: Page, i: Index) returns (r: Option<Word>)
      ensures Lookup(mem, cr3, page).None? ==> r == None
      ensures Lookup(mem, cr3, page).Some? ==> r == Some(mem[Lookup(mem, cr3, page).value.frame][i])
    {
      var at := Lookup(mem, cr3, page);
      if at.None? { return None; }
      return Some(mem[at.value.frame][i]);
    }

    method Store(page: Page, i: Index, w: Word) returns (ok: bool)
      modifies this`mem
      ensures ok <==> old(Lookup(mem, cr3, page)).Some?
      ensures mem == if ok then Poke(old(mem), old(Lookup(mem, cr3, page)).value.frame, i, w) else old(mem)
    {
      var at := Lookup(mem, cr3, page);
      if at.None? { return false; }
      mem := Poke(mem, at.value.frame, i, w);
      return true;
    }

    /** kmemset(page, 0, 4096) */
    method ZeroPage(page: Page) returns (ok: bool)
      modifies this`mem
      ensures ok <==> old(Lookup(mem, cr3, page)).Some?
      ensures mem == if ok then old(mem)[old(Lookup(mem, cr3, page)).value.frame := ZERO_FRAME] else old(mem)
    {
      var at := Lookup(mem, cr3, page);
      if at.None? { return false; }
      mem := mem[at.value.frame := ZERO_FRAME];
      return true;
    }

    /** kmemcpy of one page onto another */
    method CopyPage(dst: Page, src: Page) returns (ok: bool)
      modifies this`mem
      ensures ok <==> old(Lookup(mem, cr3, dst)).Some? && old(Lookup(mem, cr3, src)).Some?
      ensures mem == if ok then
                old(mem)[old(Lookup(mem, cr3, dst)).value.frame := old(mem)[old(Lookup(mem, cr3, src)).value.frame]]
              else old(mem)
    {
      var to, from := Lookup(mem, cr3, dst), Lookup(mem, cr3, src);
      if to.None? || from.None? { return false; }
      mem := mem[to.value.frame := mem[from.value.frame]];
      return true;
    }

    /** The four bit-field stores that fill a directory or table entry; the other bits of the word stay. */
    method SetEntry(page: Page, i: Index, flags: Flags, frame: FrameNo) returns (ok: bool)
      modifies this`mem
      ensures ok <==> old(Lookup(mem, cr3, page)).Some?
      ensures mem == if ok then
                var f := old(Lookup(mem, cr3, page)).value.frame;
                Poke(old(mem), f, i, WithFlags(old(mem)[f][i], flags, frame))
              else old(mem)
    {
      var word := Load(page, i);
      if word.None? { return false; }
      ok := Store(page, i, WithFlags(word.value, flags, frame));
    }

    // ---- vmm_map.c ----

    /** The branch of kvmm_map_page that creates a page table. */
    method InstallNewTable(p: Page, flags: Flags) returns (r: Result<bool>, ghost t: FrameNo)
      requires Ready()
      modifies this`mem, pmm`freePages, pmm.bitmap
      ensures Ready() && Grown(old(pmm.Used()), pmm.Used())
      ensures UsedRun(old(pmm.Used()), 0, |old(pmm.Used())|) ==>
        r == Returned(false) && mem == old(mem) && pmm.Used() == old(pmm.Used())
      ensures !UsedRun(old(pmm.Used()), 0, |old(pmm.Used())|) ==>
        LeftmostRun(old(pmm.Used()), t, 1) && pmm.Used() == old(pmm.Used())[t := true]
      ensures old(SelfMapped(mem, cr3)) && !UsedRun(old(pmm.Used()), 0, |old(pmm.Used())|) ==>
        match old(Lookup(mem, cr3, PhysToVirt(t)))
        case None => r == Halted && mem == old(mem)
        case Some(shown) =>
          if shown.frame == cr3 then r == Halted && mem == old(mem)[cr3 := ZERO_FRAME]
          else r == Returned(true) && mem == Installed(old(mem), cr3, p.slot, flags, t, shown.frame)
    {
      ghost var bits := pmm.Used();
      SinglePage(bits);
      t := 0;
      var frame := pmm.AllocPages(1);
      if frame.Halted? { return Halted, t; }
      if frame.value == 0 { return Returned(false), t; }
      var table := frame.value / PAGE_SIZE;
      t := table;
      assert pmm.Used() == bits[t := true];
      var zeroed := ZeroPage(PhysToVirt(table));
      if !zeroed { return Halted, t; }
      var stored := SetEntry(PD_PAGE, p.slot, flags, table);
      if !stored { return Halted, t; }
      return Returned(true), t;
    }

    /** The end of kvmm_map_page: fills the entry unless it is already in use. */
    method FillEntry(p: Page, frame: FrameNo, flags: Flags) returns (r: Result<bool>)
      modifies this`mem
      ensures FillOutcome(old(mem), cr3, p, frame, flags, r, mem)
    {
      var pte := Load(TablePage(p.slot), p.index);
      if pte.None? { return Halted; }
      if pte.value.present {
        return Returned(false);
      }
      var stored := SetEntry(TablePage(p.slot), p.index, flags, frame);
      return Returned(true);
    }

    /** kvmm_unmap_page */
    method UnmapPage(va: Vaddr) returns (r: Result<bool>)
      modifies this`mem
      ensures SelfMapped(old(mem), cr3) ==> UnmapOutcome(old(mem), cr3, va, r, mem)
    {
      var p := PageOf(va);
      if va % PAGE_SIZE != 0 {
        return Returned(false);
      }
      var pde := Load(PD_PAGE, p.slot);
      if pde.None? { return Halted; }
      if !pde.value.present {
        return Returned(false);
      }
      var pte := Load(TablePage(p.slot), p.index);
      if pte.None? { return Halted; }
      if !pte.value.present {
        return Returned(false);
      }
      var stored := Store(TablePage(p.slot), p.index, ZERO);
      if !stored { return Halted; }
      return Returned(true);
    }

    /** No page has been mapped yet, and none will be of an unaligned range. */
    lemma RangeBegins(va: Vaddr, pa: Vaddr, flags: Flags, amount: nat)
      ensures Grown(pmm.Used(), pmm.Used()) && InTurn(mem, cr3, pmm.Used(), va, pa, flags, 0, mem, pmm.Used())
      ensures va / PAGE_SIZE < FRAME_COUNT
      ensures Valid() ==> Wf(mem, cr3) && StructureUsed(mem, cr3, pmm.Used())
      ensures Valid() ==> RangeState(mem, mem, cr3, pmm.Used(), pmm.Used(), va / PAGE_SIZE, 0, pa / PAGE_SIZE, flags)
      ensures va % PAGE_SIZE != 0 || pa % PAGE_SIZE != 0 ==>
        RangeRun(mem, cr3, pmm.Used(), va, pa, flags, amount, Returned(false), mem, pmm.Used())
      ensures (va % PAGE_SIZE != 0 || pa % PAGE_SIZE != 0) && InScope(va, amount, flags) ==>
        RangeOutcome(mem, cr3, pmm.Used(), va, pa, flags, amount, Returned(false), mem, pmm.Used())
    {
      NoTurn(mem, cr3, pmm.Used(), va, pa, flags);
      hide Bits, RangeOutcome, InTurn;
      if Valid() { RangeStart(mem, cr3, pmm.Used(), va, pa, flags); }
      if va % PAGE_SIZE != 0 || pa % PAGE_SIZE != 0 { Unaligned(mem, cr3, pmm.Used(), va, pa, flags, amount); }
    }

    /** kvmm_map_range */
    method MapRange(va: Vaddr, pa: Vaddr, flags: Flags, amount: nat) returns (r: Result<bool>)
      requires Ready()
      modifies this`mem, pmm`freePages, pmm.bitmap
      ensures Ready() && Grown(old(pmm.Used()), pmm.Used())
      ensures old(SelfMapped(mem, cr3)) ==>
        RangeRun(old(mem), cr3, old(pmm.Used()), va, pa, flags, amount, r, mem, pmm.Used())
      ensures old(Valid()) && InScope(va, amount, flags) && TakenVisible(old(mem), cr3, old(pmm.Used()), pmm.Used()) ==>
        RangeOutcome(old(mem), cr3, old(pmm.Used()), va, pa, flags, amount, r, mem, pmm.Used())
      ensures old(Valid()) && InScope(va, amount, flags) && FreeVisible(old(mem), cr3, old(pmm.Used())) ==>
        RangeOutcome(old(mem), cr3, old(pmm.Used()), va, pa, flags, amount, r, mem, pmm.Used())
      ensures old(Valid()) && InScope(va, amount, flags) && TablesPresent(old(mem), cr3, va, amount) ==>
        pmm.Used() == old(pmm.Used()) && mem[cr3] == old(mem)[cr3]
      ensures old(SelfMapped(mem, cr3)) && r.Returned? ==> SelfMapped(mem, cr3)
      ensures old(SelfMapped(mem, cr3)) && va / PAGE_SIZE + amount >= FRAME_COUNT ==> r != Returned(true)
    {
      hide RangeState, RangeOutcome, RangeRun, InTurn, TakenVisible, FreeVisible, TablesPresent, InScope;
      hide Wf, StructureUsed, SelfMapped, Grown, Bits, MapOutcome;
      ghost var m, bits, scope := mem, pmm.Used(), old(Valid()) && InScope(va, amount, flags);
      RangeBegins(va, pa, flags, amount);
      if va % PAGE_SIZE != 0 || pa % PAGE_SIZE != 0 {
        return Returned(false);
      }
      var i := 0;
      while i < amount
        invariant 0 <= i <= amount
        invariant Ready() && Grown(bits, pmm.Used())
        invariant scope && TakenVisible(m, cr3, bits, pmm.Used()) ==>
          RangeState(m, mem, cr3, bits, pmm.Used(), va / PAGE_SIZE, i, pa / PAGE_SIZE, flags)
        invariant scope && TablesPresent(m, cr3, va, amount) ==> pmm.Used() == bits && mem[cr3] == m[cr3]
        invariant SelfMapped(m, cr3) ==> SelfMapped(mem, cr3) && va / PAGE_SIZE + i < FRAME_COUNT
        invariant SelfMapped(m, cr3) ==> InTurn(m, cr3, bits, va, pa, flags, i, mem, pmm.Used())
      {
        ghost var m1, bits1 := mem, pmm.Used();
        r := MapRangePage(m, bits, va, pa, flags, i, amount, scope);
        if SelfMapped(m, cr3) {
          NextTurn(m, cr3, bits, va, pa, flags, i, amount, m1, bits1, r, mem, pmm.Used());
        }
        if r.Halted? || !r.value {
          FreeIsTaken(m, cr3, bits, pmm.Used());
          return;
        }
        i := i + 1;
      }
      if SelfMapped(m, cr3) { AllTurns(m, cr3, bits, va, pa, flags, amount, mem, pmm.Used()); }
      FreeIsTaken(m, cr3, bits, pmm.Used());
      if scope && TakenVisible(m, cr3, bits, pmm.Used()) {
        RangeEnd(m, mem, cr3, bits, pmm.Used(), va, pa, flags, amount);
      }
      return Returned(true);
    }

    /** One iteration of kvmm_map_range: page i of the range. */
    method MapRangePage(
      ghost m: Memory, ghost bits: seq<bool>, va: Vaddr, pa: Vaddr, flags: Flags, i: nat, amount: nat,
      ghost scope: bool)
      returns (r: Result<bool>)
      requires Ready() && i < amount && va % PAGE_SIZE == 0 && pa % PAGE_SIZE == 0 && Grown(bits, pmm.Used())
      requires scope ==> InScope(va, amount, flags) && Wf(m, cr3) && StructureUsed(m, cr3, bits)
      requires scope && TakenVisible(m, cr3, bits, pmm.Used()) ==>
        RangeState(m, mem, cr3, bits, pmm.Used(), va / PAGE_SIZE, i, pa / PAGE_SIZE, flags)
      requires scope && TablesPresent(m, cr3, va, amount) ==> pmm.Used() == bits && mem[cr3] == m[cr3]
      modifies this`mem, pmm`freePages, pmm.bitmap
      ensures Ready() && Grown(bits, pmm.Used())
      ensures old(SelfMapped(mem, cr3)) ==>
        MapOutcome(
          old(mem), cr3, old(pmm.Used()), Wrap32(va + PAGE_SIZE * i), Wrap32(pa + PAGE_SIZE * i), flags, r, mem, pmm.Used())
      ensures scope && TablesPresent(m, cr3, va, amount) ==> pmm.Used() == bits && mem[cr3] == m[cr3]
      ensures scope && TakenVisible(m, cr3, bits, pmm.Used()) ==>
        if r == Returned(true) then
          RangeState(m, mem, cr3, bits, pmm.Used(), va / PAGE_SIZE, i + 1, pa / PAGE_SIZE, flags)
        else
          RangeOutcome(m, cr3, bits, va, pa, flags, amount, r, mem, pmm.Used())
      ensures old(SelfMapped(mem, cr3)) && r.Returned? ==> SelfMapped(mem, cr3)
      ensures old(SelfMapped(mem, cr3)) && r == Returned(true) && va / PAGE_SIZE + i < FRAME_COUNT ==>
        va / PAGE_SIZE + i + 1 < FRAME_COUNT
    {
      ghost var m1, bits1 := mem, pmm.Used();
      hide *;
      r := MapPage(Wrap32(va + PAGE_SIZE * i), Wrap32(pa + PAGE_SIZE * i), flags);
      if SelfMapped(m1, cr3) {
        WindowStays(m1, cr3, bits1, Wrap32(va + PAGE_SIZE * i), Wrap32(pa + PAGE_SIZE * i), flags, r, mem, pmm.Used());
        NeverTheWindow(va, i);
      }
      GrownTwice(bits, bits1, pmm.Used());
      NothingIsVisible(m, cr3, bits);
      if scope && TablesPresent(m, cr3, va, amount) {
        NothingTaken(m, cr3, bits, va, pa, flags, i, amount, m1, r, mem, pmm.Used());
      }
      if scope && TakenVisible(m, cr3, bits, pmm.Used()) {
        RangePage(m, cr3, bits, va, pa, flags, i, amount, m1, bits1, r, mem, pmm.Used());
      }
    }

    /** kvmm_map_page */
    method MapPage(va: Vaddr, pa: Vaddr, flags: Flags) returns (r: Result<bool>)
      requires Ready()
      modifies this`mem, pmm`freePages, pmm.bitmap
      ensures Ready() && Grown(old(pmm.Used()), pmm.Used())
      ensures old(SelfMapped(mem, cr3)) ==>
        MapOutcome(old(mem), cr3, old(pmm.Used()), va, pa, flags, r, mem, pmm.Used())
    {
      var p := PageOf(va);
      if va % PAGE_SIZE != 0 || pa % PAGE_SIZE != 0 {
        return Returned(false);
      }
      var pde := Load(PD_PAGE, p.slot);
      if pde.None? { return Halted; }
      if !pde.value.present {
        ghost var t;
        r, t := InstallNewTable(p, flags);
        if r.Halted? || !r.value {
          assert !old(SelfMapped(mem, cr3)) || UsedRun(old(pmm.Used()), 0, |old(pmm.Used())|)
            || NewTableOutcome(old(mem), cr3, old(pmm.Used()), p, pa / PAGE_SIZE, flags, t, r, mem, pmm.Used());
          return;
        }
        r := FillEntry(p, pa / PAGE_SIZE, flags);
        assert old(SelfMapped(mem, cr3)) ==>
          NewTableOutcome(old(mem), cr3, old(pmm.Used()), p, pa / PAGE_SIZE, flags, t, r, mem, pmm.Used());
      } else {
        r := FillEntry(p, pa / PAGE_SIZE, flags);
      }
    }
  }

  // ---- What the outcomes mean for the address space ----

  /** If the call has to create a table, its frame is one the kernel can reach at PHYS_TO_VIRT. */
  ghost predicate TableVisible(m: Memory, pd: FrameNo, bits: seq<bool>, slot: Index) {
    m[pd][slot].present || forall t: FrameNo :: LeftmostRun(bits, t, 1) ==> DirectMapped(m, pd, t)
  }

  /** The same, after one page has been taken: the table would get the second lowest free frame. */
  ghost predicate SecondFreeVisible(m: Memory, pd: FrameNo, bits: seq<bool>, slot: Index) {
    m[pd][slot].present ||
    forall a: FrameNo, t: FrameNo :: a < |bits| && LeftmostRun(bits, a, 1) && LeftmostRun(bits[a := true], t, 1) ==> DirectMapped(m, pd, t)
  }

  /** The mapping a page of `slot` gets: rights already refused by an existing directory entry stay refused. */
  function Granted(m: Memory, pd: FrameNo, slot: Index, frame: FrameNo, flags: Flags): Mapping {
    if m[pd][slot].present then Mapping(frame, m[pd][slot].rw && flags.rw, m[pd][slot].user && flags.user)
    else Mapping(frame, flags.rw, flags.user)
  }

  /** Other directory entries are kept; a new one carries the flags of the call. */
  ghost predicate SlotsKept(m: Memory, m': Memory, pd: FrameNo, flags: Flags) {
    forall k: Index :: k < RECURSIVE ==>
      if m[pd][k].present then m'[pd][k] == m[pd][k]
      else m'[pd][k].present ==> m'[pd][k].rw == flags.rw && m'[pd][k].user == flags.user
  }

  /** A successful kvmm_map_page changes the translation of exactly the page it names. */
  lemma MapMeaning(
    m: Memory, pd: FrameNo, bits: seq<bool>, va: Vaddr, pa: Vaddr, flags: Flags, r: Result<bool>, m': Memory,
    bits': seq<bool>)
    requires Wf(m, pd) && StructureUsed(m, pd, bits) && PageOf(va).slot < RECURSIVE && flags.present
    requires TableVisible(m, pd, bits, PageOf(va).slot)
    requires MapOutcome(m, pd, bits, va, pa, flags, r, m', bits')
    ensures r.Returned? && Wf(m', pd) && StructureUsed(m', pd, bits') && SlotsKept(m, m', pd, flags)
    ensures r.value <==> va % PAGE_SIZE == 0 && pa % PAGE_SIZE == 0 && Lookup(m, pd, PageOf(va)).None?
                         && (m[pd][PageOf(va).slot].present || !UsedRun(bits, 0, |bits|))
    ensures r.value ==> ViewUpdated(m, m', pd, PageOf(va), Some(Granted(m, pd, PageOf(va).slot, pa / PAGE_SIZE, flags)))
    ensures !r.value ==> m' == m && bits' == bits
    ensures r.value && m[pd][PageOf(va).slot].present ==> (
      var t, i := m[pd][PageOf(va).slot].frame, PageOf(va).index;
      m' == Poke(m, t, i, Word(true, flags.rw, flags.user, m[t][i].rest, pa / PAGE_SIZE)))
  {
    var p, frame := PageOf(va), pa / PAGE_SIZE;
    if va % PAGE_SIZE == 0 && pa % PAGE_SIZE == 0 {
      if m[pd][p.slot].present {
        if Lookup(m, pd, p).None? {
          ExistingTable(m, pd, bits, p, WithFlags(m[m[pd][p.slot].frame][p.index], flags, frame));
        }
      } else if !UsedRun(bits, 0, |bits|) {
        var t := FilledNewTable(m, pd, bits, va, pa, flags, r, m', bits');
        NewTableMeaning(m, pd, bits, p, WithFlags(m[pd][p.slot], flags, t), WithFlags(ZERO, flags, frame));
      }
    }
  }

  /** A successful call that needs a table takes a free frame and leaves in it just the new entry. */
  lemma FilledNewTable(
    m: Memory, pd: FrameNo, bits: seq<bool>, va: Vaddr, pa: Vaddr, flags: Flags, r: Result<bool>, m': Memory,
    bits': seq<bool>)
    returns (t: FrameNo)
    requires Wf(m, pd) && StructureUsed(m, pd, bits) && PageOf(va).slot < RECURSIVE && flags.present
    requires va % PAGE_SIZE == 0 && pa % PAGE_SIZE == 0 && !m[pd][PageOf(va).slot].present && !UsedRun(bits, 0, |bits|)
    requires TableVisible(m, pd, bits, PageOf(va).slot)
    requires MapOutcome(m, pd, bits, va, pa, flags, r, m', bits')
    ensures r == Returned(true) && t < |bits| && !bits[t] && bits' == bits[t := true]
    ensures m' == WithNewTable(m, pd, PageOf(va), WithFlags(m[pd][PageOf(va).slot], flags, t), WithFlags(ZERO, flags, pa / PAGE_SIZE))
  {
    var p, frame := PageOf(va), pa / PAGE_SIZE;
    t :| NewTableOutcome(m, pd, bits, p, frame, flags, t, r, m', bits');
    assert ClearRun(bits, t, 1) && DirectMapped(m, pd, t) && !Structure(m, pd, t);
    NewTableMemory(m, pd, p, WithFlags(m[pd][p.slot], flags, t), WithFlags(ZERO, flags, frame));
  }

  /**
   * The named page is mapped, every other translation and every frame but the directory and the page's table is kept.
   */
  ghost predicate MapsCleanly(m: Memory, m': Memory, pd: FrameNo, va: Vaddr, pa: Vaddr, flags: Flags) {
    var slot := PageOf(va).slot;
    && ViewUpdated(m, m', pd, PageOf(va), Some(Granted(m, pd, slot, pa / PAGE_SIZE, flags)))
    && forall f: FrameNo :: f != pd && !(m'[pd][slot].present && m'[pd][slot].frame == f) ==> m'[f] == m[f]
  }

  /**
   * A table put in frame `t` starts empty: PHYS_TO_VIRT shows `t` itself, or, by luck, the frame wiped in its place was zero
   * already and so were the present bits of `t`.
   */
  predicate StartsEmpty(m: Memory, pd: FrameNo, t: FrameNo) {
    match Lookup(m, pd, PhysToVirt(t))
    case None => false
    case Some(shown) => shown.frame == t || (m[shown.frame] == ZERO_FRAME && forall i: Index :: !m[t][i].present)
  }

  /**
   * Whatever PHYS_TO_VIRT of the new table shows (nothing, another frame, a table, the directory): a call maps its page and
   * disturbs nothing else exactly if the addresses are aligned, the page is free, and the table is there or starts empty.
   */
  lemma MapsCleanlyIff(
    m: Memory, pd: FrameNo, bits: seq<bool>, va: Vaddr, pa: Vaddr, flags: Flags, r: Result<bool>, m': Memory,
    bits': seq<bool>)
    requires Wf(m, pd) && StructureUsed(m, pd, bits) && PageOf(va).slot < RECURSIVE && flags.present
    requires MapOutcome(m, pd, bits, va, pa, flags, r, m', bits')
    ensures r == Returned(true) && MapsCleanly(m, m', pd, va, pa, flags) <==>
      && va % PAGE_SIZE == 0 && pa % PAGE_SIZE == 0 && Lookup(m, pd, PageOf(va)).None?
      && (m[pd][PageOf(va).slot].present || exists t: FrameNo :: LeftmostRun(bits, t, 1) && StartsEmpty(m, pd, t))
  {
    var p, frame := PageOf(va), pa / PAGE_SIZE;
    if va % PAGE_SIZE == 0 && pa % PAGE_SIZE == 0 {
      if m[pd][p.slot].present {
        if Lookup(m, pd, p).None? {
          ExistingTable(m, pd, bits, p, WithFlags(m[m[pd][p.slot].frame][p.index], flags, frame));
        }
      } else if UsedRun(bits, 0, |bits|) {
        forall t: FrameNo ensures !LeftmostRun(bits, t, 1) { if t < |bits| { assert bits[t]; } }
      } else {
        var t: FrameNo :| NewTableOutcome(m, pd, bits, p, frame, flags, t, r, m', bits');
        LeftmostIsUnique(bits, t);
        MisplacedTable(m, pd, bits, va, pa, flags, t, r, m', bits');
      }
    }
  }

  /** The same for a call that takes frame `t` for its table. */
  lemma MisplacedTable(
    m: Memory, pd: FrameNo, bits: seq<bool>, va: Vaddr, pa: Vaddr, flags: Flags, t: FrameNo, r: Result<bool>,
    m': Memory, bits': seq<bool>)
    requires Wf(m, pd) && StructureUsed(m, pd, bits) && PageOf(va).slot < RECURSIVE && flags.present
    requires !m[pd][PageOf(va).slot].present
    requires NewTableOutcome(m, pd, bits, PageOf(va), pa / PAGE_SIZE, flags, t, r, m', bits')
    ensures r == Returned(true) && MapsCleanly(m, m', pd, va, pa, flags) <==> StartsEmpty(m, pd, t)
  {
    assert ClearRun(bits, t, 1) && !Structure(m, pd, t);
    var at := Lookup(m, pd, PhysToVirt(t));
    if at.Some? {
      if at.value.frame == pd {
        assert m[pd] != ZERO_FRAME;
      } else {
        FilledElsewhere(m, pd, PageOf(va), pa / PAGE_SIZE, flags, t, at.value.frame, r, m');
        if r == Returned(true) {
          CleanOrNot(m, pd, va, pa, flags, t, at.value.frame, m');
        }
      }
    }
  }

  /** The memory after the call, when the zeroes went to frame `wiped`. */
  function FilledAt(m: Memory, pd: FrameNo, p: Page, frame: FrameNo, flags: Flags, t: FrameNo, wiped: FrameNo): Memory {
    var installed := Installed(m, pd, p.slot, flags, t, wiped);
    Poke(installed, t, p.index, WithFlags(installed[t][p.index], flags, frame))
  }

  lemma FilledElsewhere(
    m: Memory, pd: FrameNo, p: Page, frame: FrameNo, flags: Flags, t: FrameNo, wiped: FrameNo, r: Result<bool>,
    m': Memory)
    requires Wf(m, pd) && t != pd && wiped != pd && p.slot < RECURSIVE && flags.present
    requires FillOutcome(Installed(m, pd, p.slot, flags, t, wiped), pd, p, frame, flags, r, m')
    ensures r.Returned? && (r.value <==> wiped == t || !m[t][p.index].present)
    ensures r.value ==> m' == FilledAt(m, pd, p, frame, flags, t, wiped)
  {
    assert Lookup(Installed(m, pd, p.slot, flags, t, wiped), pd, TablePage(p.slot)).value.frame == t;
  }

  lemma CleanOrNot(m: Memory, pd: FrameNo, va: Vaddr, pa: Vaddr, flags: Flags, t: FrameNo, wiped: FrameNo, m': Memory)
    requires Wf(m, pd) && PageOf(va).slot < RECURSIVE && flags.present && !Structure(m, pd, t) && wiped != pd
    requires !m[pd][PageOf(va).slot].present && (wiped == t || !m[t][PageOf(va).index].present)
    requires m' == FilledAt(m, pd, PageOf(va), pa / PAGE_SIZE, flags, t, wiped)
    ensures MapsCleanly(m, m', pd, va, pa, flags) <==>
      wiped == t || (m[wiped] == ZERO_FRAME && forall i: Index :: !m[t][i].present)
  {
    var p := PageOf(va);
    assert m'[pd][p.slot] == WithFlags(m[pd][p.slot], flags, t);
    if wiped != t {
      assert m'[wiped] == ZERO_FRAME;
      if MapsCleanly(m, m', pd, va, pa, flags) {
        forall i: Index | i != p.index ensures !m[t][i].present {
          assert Lookup(m', pd, Page(p.slot, i)) == Lookup(m, pd, Page(p.slot, i));
        }
      }
    }
    if wiped == t || (m[wiped] == ZERO_FRAME && forall i: Index :: !m[t][i].present) {
      NothingElseChanged(m, pd, p, pa / PAGE_SIZE, flags, t, wiped, m');
    }
  }

  lemma NothingElseChanged(
    m: Memory, pd: FrameNo, p: Page, frame: FrameNo, flags: Flags, t: FrameNo, wiped: FrameNo, m': Memory)
    requires Wf(m, pd) && p.slot < RECURSIVE && flags.present && !Structure(m, pd, t) && wiped != pd
    requires !m[pd][p.slot].present
    requires wiped == t || (m[wiped] == ZERO_FRAME && forall i: Index :: !m[t][i].present)
    requires m' == FilledAt(m, pd, p, frame, flags, t, wiped)
    ensures ViewUpdated(m, m', pd, p, Some(Granted(m, pd, p.slot, frame, flags)))
  {
    forall q: Page | q.slot < RECURSIVE && q != p ensures Lookup(m', pd, q) == Lookup(m, pd, q) {
      if q.slot == p.slot {
        assert !m'[t][q.index].present;
      } else if m[pd][q.slot].present {
        assert Structure(m, pd, m[pd][q.slot].frame) && m'[m[pd][q.slot].frame] == m[m[pd][q.slot].frame];
      }
    }
  }

  /**
   * Example: a table put in frame 0x10000 (256 MiB) is looked for at the first page of the heap, which is wiped
   * instead.
   */
  lemma HeapWipedByTable(
    m: Memory, pd: FrameNo, bits: seq<bool>, va: Vaddr, pa: Vaddr, flags: Flags, heap: FrameNo, m': Memory,
    bits': seq<bool>)
    requires Wf(m, pd) && StructureUsed(m, pd, bits) && PageOf(va).slot < RECURSIVE && flags.present
    requires va % PAGE_SIZE == 0 && pa % PAGE_SIZE == 0
    requires !m[pd][PageOf(va).slot].present && LeftmostRun(bits, 0x1_0000, 1)
    requires Lookup(m, pd, PageOf(0xD000_0000)) == Some(Mapping(heap, true, false)) && !Structure(m, pd, heap)
    requires heap != 0x1_0000
    requires MapOutcome(m, pd, bits, va, pa, flags, Returned(true), m', bits') && m[heap] != ZERO_FRAME
    ensures m'[heap] == ZERO_FRAME && !MapsCleanly(m, m', pd, va, pa, flags)
  {
    assert PhysToVirt(0x1_0000) == PageOf(0xD000_0000);
    NewTableTaken(m, pd, bits, va, pa, flags, 0x1_0000, Returned(true), m', bits');
    assert ClearRun(bits, 0x1_0000, 1) && !Structure(m, pd, 0x1_0000);
    MapsCleanlyIff(m, pd, bits, va, pa, flags, Returned(true), m', bits');
    FilledElsewhere(m, pd, PageOf(va), pa / PAGE_SIZE, flags, 0x1_0000, heap, Returned(true), m');
  }

  /**
   * Example: a table put in frame 0x3FF00 is looked for at the window of the first kernel table: the lowest 4 MiB of
   * the kernel vanish.
   */
  lemma KernelTableWiped(
    m: Memory, pd: FrameNo, bits: seq<bool>, va: Vaddr, pa: Vaddr, flags: Flags, r: Result<bool>, m': Memory,
    bits': seq<bool>)
    requires Wf(m, pd) && StructureUsed(m, pd, bits) && PageOf(va).slot < RECURSIVE && flags.present
    requires va % PAGE_SIZE == 0 && pa % PAGE_SIZE == 0 && m[pd][KERNEL_SLOT].present
    requires !m[pd][PageOf(va).slot].present && LeftmostRun(bits, 0x3_FF00, 1)
    requires MapOutcome(m, pd, bits, va, pa, flags, r, m', bits')
    ensures forall i: Index :: Lookup(m', pd, Page(KERNEL_SLOT, i)) == None
  {
    var t := 0x3_FF00;
    assert PhysToVirt(t) == TablePage(KERNEL_SLOT) by { assert PageOf(0xFFF0_0000) == TablePage(KERNEL_SLOT); }
    RecursiveWindows(m, pd, KERNEL_SLOT);
    NewTableTaken(m, pd, bits, va, pa, flags, t, r, m', bits');
    assert ClearRun(bits, t, 1) && !Structure(m, pd, t);
    var table := m[pd][KERNEL_SLOT].frame;
    assert m'[table] == ZERO_FRAME && m'[pd][KERNEL_SLOT] == m[pd][KERNEL_SLOT];
  }

  /**
   * Example: a table put in frame 0x3FFFF, the last below 1 GiB, is looked for at the window of the directory: the next
   * access faults.
   */
  lemma DirectoryWiped(
    m: Memory, pd: FrameNo, bits: seq<bool>, va: Vaddr, pa: Vaddr, flags: Flags, r: Result<bool>, m': Memory,
    bits': seq<bool>)
    requires SelfMapped(m, pd) && va % PAGE_SIZE == 0 && pa % PAGE_SIZE == 0
    requires !m[pd][PageOf(va).slot].present && LeftmostRun(bits, 0x3_FFFF, 1)
    requires MapOutcome(m, pd, bits, va, pa, flags, r, m', bits')
    ensures r == Halted && forall p: Page :: Lookup(m', pd, p) == None
  {
    RecursiveAddresses(RECURSIVE);
    assert PhysToVirt(0x3_FFFF) == PD_PAGE;
    RecursiveWindows(m, pd, RECURSIVE);
    NewTableTaken(m, pd, bits, va, pa, flags, 0x3_FFFF, r, m', bits');
  }

  lemma NewTableTaken(
    m: Memory, pd: FrameNo, bits: seq<bool>, va: Vaddr, pa: Vaddr, flags: Flags, t: FrameNo, r: Result<bool>,
    m': Memory, bits': seq<bool>)
    requires va % PAGE_SIZE == 0 && pa % PAGE_SIZE == 0 && !m[pd][PageOf(va).slot].present && LeftmostRun(bits, t, 1)
    requires MapOutcome(m, pd, bits, va, pa, flags, r, m', bits')
    ensures NewTableOutcome(m, pd, bits, PageOf(va), pa / PAGE_SIZE, flags, t, r, m', bits')
  {
    LeftmostIsUnique(bits, t);
    assert ClearRun(bits, t, 1) && !bits[t];
  }

  lemma ExistingTable(m: Memory, pd: FrameNo, bits: seq<bool>, p: Page, w: Word)
    requires Wf(m, pd) && StructureUsed(m, pd, bits) && p.slot < RECURSIVE && m[pd][p.slot].present
    ensures var m' := Poke(m, m[pd][p.slot].frame, p.index, w);
      && Wf(m', pd) && StructureUsed(m', pd, bits) && m'[pd] == m[pd]
      && ViewUpdated(
           m, m', pd, p, if w.present then Some(Mapping(w.frame, m[pd][p.slot].rw && w.rw, m[pd][p.slot].user && w.user)) else None)
  {
    EntryWrite(m, pd, p, w);
    var m' := Poke(m, m[pd][p.slot].frame, p.index, w);
    SameDirectory(m, m', pd);
  }

  lemma NewTableMeaning(m: Memory, pd: FrameNo, bits: seq<bool>, p: Page, pde: Word, pte: Word)
    requires Wf(m, pd) && StructureUsed(m, pd, bits) && p.slot < RECURSIVE && !m[pd][p.slot].present
    requires pde.present && pte.present && pde.frame < |bits| && !bits[pde.frame]
    ensures var m' := WithNewTable(m, pd, p, pde, pte);
      && Wf(m', pd) && StructureUsed(m', pd, bits[pde.frame := true])
      && (forall k: Index :: k != p.slot ==> m'[pd][k] == m[pd][k]) && m'[pd][p.slot] == pde
      && ViewUpdated(m, m', pd, p, Some(Mapping(pte.frame, pde.rw && pte.rw, pde.user && pte.user)))
  {
    var t := pde.frame;
    var zeroed := m[t := ZERO_FRAME];
    OutsideWrite(m, pd, t, ZERO_FRAME);
    InstallTable(zeroed, pd, p.slot, pde);
    var installed := Poke(zeroed, pd, p.slot, pde);
    EntryWrite(installed, pd, p, pte);
    NewTableMemory(m, pd, p, pde, pte);
    var m' := WithNewTable(m, pd, p, pde, pte);
    SameDirectory(installed, m', pd);
    forall f: FrameNo | Structure(m', pd, f) ensures f < |bits| && bits[t := true][f] {
      assert Structure(installed, pd, f);
      assert f == t || (Structure(zeroed, pd, f) && Structure(m, pd, f));
    }
  }

  /** A successful kvmm_unmap_page removes exactly the page it names, and succeeds exactly on a mapped page. */
  lemma UnmapMeaning(m: Memory, pd: FrameNo, bits: seq<bool>, va: Vaddr, r: Result<bool>, m': Memory)
    requires Wf(m, pd) && StructureUsed(m, pd, bits) && PageOf(va).slot < RECURSIVE
    requires UnmapOutcome(m, pd, va, r, m')
    ensures r.Returned? && Wf(m', pd) && StructureUsed(m', pd, bits) && m'[pd] == m[pd]
    ensures r.value <==> va % PAGE_SIZE == 0 && Lookup(m, pd, PageOf(va)).Some?
    ensures r.value ==> ViewUpdated(m, m', pd, PageOf(va), None)
    ensures !r.value ==> m' == m
    ensures r.value ==> forall f: FrameNo :: f != m[pd][PageOf(va).slot].frame ==> m'[f] == m[f]
  {
    if va % PAGE_SIZE == 0 && Lookup(m, pd, PageOf(va)).Some? {
      ExistingTable(m, pd, bits, PageOf(va), ZERO);
    }
  }

  /**
   * Unmapping the window of a table takes away that table's pages and no other; unmapping the directory's own takes
   * every window.
   */
  lemma UnmapWindow(m: Memory, pd: FrameNo, va: Vaddr, r: Result<bool>, m': Memory)
    requires Wf(m, pd) && va % PAGE_SIZE == 0 && PageOf(va).slot == RECURSIVE
    requires UnmapOutcome(m, pd, va, r, m')
    ensures r == Returned(m[pd][PageOf(va).index].present)
    ensures forall q: Page :: q.slot < RECURSIVE ==> Lookup(m', pd, q) == if q.slot == PageOf(va).index then None else Lookup(m, pd, q)
    ensures PageOf(va) == PD_PAGE ==> forall slot: Index :: Lookup(m', pd, TablePage(slot)) == None
  {
    var i := PageOf(va).index;
    RecursiveWindows(m, pd, i);
    assert PageOf(va) == TablePage(i);
    assert m' == if m[pd][i].present then Poke(m, pd, i, ZERO) else m;
    forall q: Page | q.slot < RECURSIVE && q.slot != i ensures Lookup(m', pd, q) == Lookup(m, pd, q) {
      if m[pd][q.slot].present { assert m[pd][q.slot].frame != pd; }
    }
  }

  /** Unmapping the page just mapped gives the old address space back. */
  lemma UnmapUndoesMap(
    m: Memory, pd: FrameNo, bits: seq<bool>, va: Vaddr, pa: Vaddr, flags: Flags,
    m1: Memory, bits1: seq<bool>, r: Result<bool>, m2: Memory)
    requires Wf(m, pd) && StructureUsed(m, pd, bits) && PageOf(va).slot < RECURSIVE && flags.present
    requires TableVisible(m, pd, bits, PageOf(va).slot)
    requires MapOutcome(m, pd, bits, va, pa, flags, Returned(true), m1, bits1) && UnmapOutcome(m1, pd, va, r, m2)
    ensures r == Returned(true) && SameView(m, m2, pd)
  {
    MapMeaning(m, pd, bits, va, pa, flags, Returned(true), m1, bits1);
    UnmapMeaning(m1, pd, bits1, va, r, m2);
  }

  // ---- Ranges ----

  function NumberOf(p: Page): nat { p.slot * ENTRIES + p.index }

  /**
   * Pages first, first + 1, ..., all unmapped before, are mapped to frame, frame + 1, ...; the others are untouched.
   */
  ghost predicate RangeMapped(m: Memory, m': Memory, pd: FrameNo, first: nat, n: nat, frame: nat, flags: Flags) {
    forall q: Page :: q.slot < RECURSIVE ==>
      if first <= NumberOf(q) < first + n then
        && Lookup(m, pd, q).None?
        && Lookup(m', pd, q) == Some(Granted(m, pd, q.slot, (frame + (NumberOf(q) - first)) % FRAME_COUNT, flags))
      else Lookup(m', pd, q) == Lookup(m, pd, q)
  }

  /** Every frame the allocator gave out in between is reachable at PHYS_TO_VIRT. */
  ghost predicate TakenVisible(m: Memory, pd: FrameNo, bits: seq<bool>, bits': seq<bool>) {
    forall t: FrameNo :: t < |bits| == |bits'| && !bits[t] && bits'[t] ==> DirectMapped(m, pd, t)
  }

  /** The state after `i` pages of a range. */
  ghost predicate RangeState(
    m: Memory, m': Memory, pd: FrameNo, bits: seq<bool>, bits': seq<bool>, first: nat, n: nat, frame: nat, flags: Flags)
  {
    && Wf(m', pd) && StructureUsed(m', pd, bits') && SlotsKept(m, m', pd, flags)
    && RangeMapped(m, m', pd, first, n, frame, flags)
  }

  /** The range stays below the recursive slot. */
  predicate InScope(va: Vaddr, amount: nat, flags: Flags) {
    flags.present && va / PAGE_SIZE + amount <= RECURSIVE * ENTRIES
  }

  lemma RangeStart(m: Memory, pd: FrameNo, bits: seq<bool>, va: Vaddr, pa: Vaddr, flags: Flags)
    requires Wf(m, pd) && StructureUsed(m, pd, bits)
    ensures RangeState(m, m, pd, bits, bits, va / PAGE_SIZE, 0, pa / PAGE_SIZE, flags)
    ensures Grown(bits, bits)
  {
  }

  lemma RangeEnd(
    m: Memory, m': Memory, pd: FrameNo, bits: seq<bool>, bits': seq<bool>, va: Vaddr, pa: Vaddr, flags: Flags,
    amount: nat)
    requires InScope(va, amount, flags) && va % PAGE_SIZE == 0 && pa % PAGE_SIZE == 0
    requires RangeState(m, m', pd, bits, bits', va / PAGE_SIZE, amount, pa / PAGE_SIZE, flags)
    ensures RangeOutcome(m, pd, bits, va, pa, flags, amount, Returned(true), m', bits')
  {
  }

  /** A range stops at the first page already mapped (or when no frame is left for a table), keeping what it did. */
  ghost predicate RangeOutcome(
    m: Memory, pd: FrameNo, bits: seq<bool>, va: Vaddr, pa: Vaddr, flags: Flags, amount: nat,
    r: Result<bool>, m': Memory, bits': seq<bool>)
    requires InScope(va, amount, flags)
  {
    var first, frame := va / PAGE_SIZE, pa / PAGE_SIZE;
    && r.Returned?
    && if va % PAGE_SIZE != 0 || pa % PAGE_SIZE != 0 then !r.value && m' == m && bits' == bits
       else if r.value then RangeState(m, m', pd, bits, bits', first, amount, frame, flags)
       else exists n: nat :: n < amount && StoppedAt(m, m', pd, bits, bits', first, n, frame, flags)
  }

  /** The first `n` pages were mapped, and the next one could not be. */
  ghost predicate StoppedAt(
    m: Memory, m': Memory, pd: FrameNo, bits: seq<bool>, bits': seq<bool>, first: nat, n: nat, frame: nat, flags: Flags)
  {
    && first + n < RECURSIVE * ENTRIES
    && RangeState(m, m', pd, bits, bits', first, n, frame, flags)
    && (Lookup(m, pd, PageNo(first + n)).Some? || (!m'[pd][PageNo(first + n).slot].present && UsedRun(bits', 0, |bits'|)))
  }

  lemma RangeAddresses(va: Vaddr, pa: Vaddr, i: nat, amount: nat)
    requires va % PAGE_SIZE == 0 && pa % PAGE_SIZE == 0 && i < amount && va / PAGE_SIZE + amount <= RECURSIVE * ENTRIES
    ensures var a, b := Wrap32(va + PAGE_SIZE * i), Wrap32(pa + PAGE_SIZE * i);
      && a % PAGE_SIZE == 0 && b % PAGE_SIZE == 0
      && a / PAGE_SIZE == va / PAGE_SIZE + i && b / PAGE_SIZE == (pa / PAGE_SIZE + i) % FRAME_COUNT
      && PageOf(a).slot < RECURSIVE
  {
  }

  /** Every page of the range has its table already. */
  ghost predicate TablesPresent(m: Memory, pd: FrameNo, va: Vaddr, amount: nat) {
    forall n: nat :: va / PAGE_SIZE <= n < va / PAGE_SIZE + amount && n < FRAME_COUNT ==> m[pd][PageNo(n).slot].present
  }

  /** Then mapping the range takes no page from the allocator. */
  lemma NothingTaken(
    m: Memory, pd: FrameNo, bits: seq<bool>, va: Vaddr, pa: Vaddr, flags: Flags, i: nat, amount: nat,
    m1: Memory, r: Result<bool>, m2: Memory, bits2: seq<bool>)
    requires i < amount && va % PAGE_SIZE == 0 && pa % PAGE_SIZE == 0 && InScope(va, amount, flags)
    requires TablesPresent(m, pd, va, amount)
    requires RangeState(m, m1, pd, bits, bits, va / PAGE_SIZE, i, pa / PAGE_SIZE, flags)
    requires var a, b := Wrap32(va + PAGE_SIZE * i), Wrap32(pa + PAGE_SIZE * i);
      Wf(m1, pd) && StructureUsed(m1, pd, bits) && PageOf(a).slot < RECURSIVE ==> MapOutcome(m1, pd, bits, a, b, flags, r, m2, bits2)
    ensures bits2 == bits && m2[pd] == m1[pd]
  {
    RangeAddresses(va, pa, i, amount);
    assert m[pd][PageNo(va / PAGE_SIZE + i).slot].present;
  }

  /** `f` is the table of a page of the range. */
  ghost predicate TableOfRange(m: Memory, pd: FrameNo, va: Vaddr, amount: nat, f: FrameNo) {
    exists n: nat :: va / PAGE_SIZE <= n < va / PAGE_SIZE + amount && n < FRAME_COUNT && f == m[pd][PageNo(n).slot].frame
  }

  /** The content of every frame is as before, but for the tables of the range; the directory and the bitmap are too. */
  ghost predicate TablesOnly(
    m: Memory, bits: seq<bool>, m': Memory, bits': seq<bool>, pd: FrameNo, va: Vaddr, amount: nat)
  {
    bits' == bits && m'[pd] == m[pd] && forall f: FrameNo :: TableOfRange(m, pd, va, amount, f) || m'[f] == m[f]
  }

  lemma {:induction false} TurnsTouchTables(
    m: Memory, pd: FrameNo, bits: seq<bool>, va: Vaddr, pa: Vaddr, flags: Flags, amount: nat, i: nat, m': Memory,
    bits': seq<bool>)
    requires Wf(m, pd) && TablesPresent(m, pd, va, amount) && va / PAGE_SIZE + amount <= RECURSIVE * ENTRIES
    requires i <= amount
    requires va % PAGE_SIZE == 0 && InTurn(m, pd, bits, va, pa, flags, i, m', bits')
    ensures TablesOnly(m, bits, m', bits', pd, va, amount)
    decreases i
  {
    hide MapOutcome, Wf, TablesPresent, TablesOnly;
    if i == 0 {
      SameTables(m, bits, pd, va, amount);
    } else {
      var j: nat, m1: Memory, bits1: seq<bool> :|
        && j == i - 1 && InTurn(m, pd, bits, va, pa, flags, j, m1, bits1)
        && MapOutcome(m1, pd, bits1, Wrap32(va + PAGE_SIZE * j), Wrap32(pa + PAGE_SIZE * j), flags, Returned(true), m', bits');
      TurnsTouchTables(m, pd, bits, va, pa, flags, amount, j, m1, bits1);
      OneTouchesTable(m, pd, bits, va, pa, flags, amount, j, m1, bits1, Returned(true), m', bits');
    }
  }

  lemma SameTables(m: Memory, bits: seq<bool>, pd: FrameNo, va: Vaddr, amount: nat)
    ensures TablesOnly(m, bits, m, bits, pd, va, amount)
  {
  }

  lemma OneTouchesTable(
    m: Memory, pd: FrameNo, bits: seq<bool>, va: Vaddr, pa: Vaddr, flags: Flags, amount: nat, i: nat, m1: Memory,
    bits1: seq<bool>, r: Result<bool>, m2: Memory, bits2: seq<bool>)
    requires Wf(m, pd) && TablesPresent(m, pd, va, amount) && va / PAGE_SIZE + amount <= RECURSIVE * ENTRIES
    requires i < amount
    requires va % PAGE_SIZE == 0 && TablesOnly(m, bits, m1, bits1, pd, va, amount)
    requires MapOutcome(m1, pd, bits1, Wrap32(va + PAGE_SIZE * i), Wrap32(pa + PAGE_SIZE * i), flags, r, m2, bits2)
    ensures TablesOnly(m, bits, m2, bits2, pd, va, amount)
  {
    var n := va / PAGE_SIZE + i;
    assert Wrap32(va + PAGE_SIZE * i) / PAGE_SIZE == n && n < FRAME_COUNT;
    var table := m[pd][PageNo(n).slot].frame;
    assert m[pd][PageNo(n).slot].present && TableOfRange(m, pd, va, amount, table) && table != pd;
    assert forall f: FrameNo :: f == table || m2[f] == m1[f];
  }

  /** Where all tables exist, mapping a range writes nothing but those tables. */
  lemma RangeTouchesTables(
    m: Memory, pd: FrameNo, bits: seq<bool>, va: Vaddr, pa: Vaddr, flags: Flags, amount: nat, r: Result<bool>,
    m': Memory,
    bits': seq<bool>)
    requires Wf(m, pd) && TablesPresent(m, pd, va, amount) && va / PAGE_SIZE + amount <= RECURSIVE * ENTRIES
    requires RangeRun(m, pd, bits, va, pa, flags, amount, r, m', bits')
    ensures TablesOnly(m, bits, m', bits', pd, va, amount)
  {
    hide MapOutcome, Wf, TablesPresent, TablesOnly, InTurn;
    if va % PAGE_SIZE != 0 || pa % PAGE_SIZE != 0 {
      SameTables(m, bits, pd, va, amount);
    } else if r == Returned(true) {
      TurnsTouchTables(m, pd, bits, va, pa, flags, amount, amount, m', bits');
    } else {
      var i: nat, m1: Memory, bits1: seq<bool> :|
        && i < amount && InTurn(m, pd, bits, va, pa, flags, i, m1, bits1)
        && MapOutcome(m1, pd, bits1, Wrap32(va + PAGE_SIZE * i), Wrap32(pa + PAGE_SIZE * i), flags, r, m', bits');
      TurnsTouchTables(m, pd, bits, va, pa, flags, amount, i, m1, bits1);
      OneTouchesTable(m, pd, bits, va, pa, flags, amount, i, m1, bits1, r, m', bits');
    }
  }

  /** Every free frame is reachable at PHYS_TO_VIRT. */
  ghost predicate FreeVisible(m: Memory, pd: FrameNo, bits: seq<bool>) {
    forall t: FrameNo :: t < |bits| && !bits[t] ==> DirectMapped(m, pd, t)
  }

  lemma FreeIsTaken(m: Memory, pd: FrameNo, bits: seq<bool>, bits': seq<bool>)
    ensures FreeVisible(m, pd, bits) ==> TakenVisible(m, pd, bits, bits')
  {
  }

  /**
   * No call that returns touches a present entry, so the recursive slot stays, and its own page is never mapped again.
   */
  lemma WindowStays(
    m: Memory, pd: FrameNo, bits: seq<bool>, va: Vaddr, pa: Vaddr, flags: Flags, r: Result<bool>, m': Memory,
    bits': seq<bool>)
    requires SelfMapped(m, pd) && MapOutcome(m, pd, bits, va, pa, flags, r, m', bits')
    ensures r.Returned? ==> SelfMapped(m', pd)
    ensures va / PAGE_SIZE == FRAME_COUNT - 1 ==> r != Returned(true)
  {
  }

  lemma NeverTheWindow(va: Vaddr, i: nat)
    ensures va % PAGE_SIZE == 0 && va / PAGE_SIZE + i < FRAME_COUNT ==>
      Wrap32(va + PAGE_SIZE * i) / PAGE_SIZE == va / PAGE_SIZE + i
  {
  }

  lemma NothingIsVisible(m: Memory, pd: FrameNo, bits: seq<bool>)
    ensures TakenVisible(m, pd, bits, bits)
  {
  }

  lemma GrownTwice(bits: seq<bool>, bits1: seq<bool>, bits2: seq<bool>)
    requires Grown(bits, bits1) && Grown(bits1, bits2)
    ensures Grown(bits, bits2)
  {
  }

  lemma TakenSubset(m: Memory, pd: FrameNo, bits: seq<bool>, bits1: seq<bool>, bits2: seq<bool>)
    requires Grown(bits, bits1) && Grown(bits1, bits2) && TakenVisible(m, pd, bits, bits2)
    ensures TakenVisible(m, pd, bits, bits1) && Grown(bits, bits2)
  {
  }

  lemma RangePage(
    m: Memory, pd: FrameNo, bits: seq<bool>, va: Vaddr, pa: Vaddr, flags: Flags, i: nat, amount: nat,
    m1: Memory, bits1: seq<bool>, r: Result<bool>, m2: Memory, bits2: seq<bool>)
    requires Wf(m, pd) && StructureUsed(m, pd, bits) && Grown(bits, bits1) && Grown(bits1, bits2)
    requires InScope(va, amount, flags)
    requires i < amount && va % PAGE_SIZE == 0 && pa % PAGE_SIZE == 0 && TakenVisible(m, pd, bits, bits2)
    requires TakenVisible(m, pd, bits, bits1) ==>
      RangeState(m, m1, pd, bits, bits1, va / PAGE_SIZE, i, pa / PAGE_SIZE, flags)
    requires var a, b := Wrap32(va + PAGE_SIZE * i), Wrap32(pa + PAGE_SIZE * i);
      Wf(m1, pd) && StructureUsed(m1, pd, bits1) && PageOf(a).slot < RECURSIVE ==> MapOutcome(m1, pd, bits1, a, b, flags, r, m2, bits2)
    ensures if r == Returned(true) then
              RangeState(m, m2, pd, bits, bits2, va / PAGE_SIZE, i + 1, pa / PAGE_SIZE, flags)
            else
              RangeOutcome(m, pd, bits, va, pa, flags, amount, r, m2, bits2)
  {
    TakenSubset(m, pd, bits, bits1, bits2);
    RangeAddresses(va, pa, i, amount);
    RangeStep(m, pd, bits, Wrap32(va + PAGE_SIZE * i), Wrap32(pa + PAGE_SIZE * i), flags,
              va / PAGE_SIZE, i, pa / PAGE_SIZE, m1, bits1, r, m2, bits2);
    assert r == Returned(true) || StoppedAt(m, m2, pd, bits, bits2, va / PAGE_SIZE, i, pa / PAGE_SIZE, flags);
  }

  lemma RangeStep(
    m: Memory, pd: FrameNo, bits: seq<bool>, va: Vaddr, pa: Vaddr, flags: Flags, first: nat, n: nat, frame: nat,
    m1: Memory, bits1: seq<bool>, r: Result<bool>, m2: Memory, bits2: seq<bool>)
    requires Wf(m, pd) && StructureUsed(m, pd, bits) && flags.present && Grown(bits, bits1) && Grown(bits1, bits2)
    requires first + n < RECURSIVE * ENTRIES && va / PAGE_SIZE == first + n
    requires pa / PAGE_SIZE == (frame + n) % FRAME_COUNT
    requires va % PAGE_SIZE == 0 && pa % PAGE_SIZE == 0
    requires RangeState(m, m1, pd, bits, bits1, first, n, frame, flags)
    requires TakenVisible(m, pd, bits, bits2)
    requires MapOutcome(m1, pd, bits1, va, pa, flags, r, m2, bits2)
    ensures r == Returned(true) ==> RangeState(m, m2, pd, bits, bits2, first, n + 1, frame, flags)
    ensures r != Returned(true) ==> r == Returned(false) && m2 == m1 && bits2 == bits1
    ensures r == Returned(true) || Lookup(m, pd, PageNo(first + n)).Some?
            || (!m1[pd][PageNo(first + n).slot].present && UsedRun(bits1, 0, |bits1|))
  {
    forall t: FrameNo | !m1[pd][PageOf(va).slot].present && LeftmostRun(bits1, t, 1)
      ensures DirectMapped(m1, pd, t)
    {
      assert ClearRun(bits1, t, 1);
      TakenByMap(m1, pd, bits1, va, pa, flags, r, m2, bits2, t);
      assert !bits1[t] && !bits[t] && bits2[t];
      DirectlyBelowRecursive(m, pd, bits, t);
    }
    MapMeaning(m1, pd, bits1, va, pa, flags, r, m2, bits2);
    assert Lookup(m1, pd, PageOf(va)) == Lookup(m, pd, PageOf(va));
    if r == Returned(true) {
      ExtendRange(m, m1, m2, pd, first, n, frame, flags, pa / PAGE_SIZE);
    }
  }

  /** A call that needs a table takes the leftmost free page, whatever comes of it. */
  lemma TakenByMap(
    m: Memory, pd: FrameNo, bits: seq<bool>, va: Vaddr, pa: Vaddr, flags: Flags, r: Result<bool>, m': Memory,
    bits': seq<bool>, t: FrameNo)
    requires !m[pd][PageOf(va).slot].present && va % PAGE_SIZE == 0 && pa % PAGE_SIZE == 0
    requires MapOutcome(m, pd, bits, va, pa, flags, r, m', bits') && LeftmostRun(bits, t, 1)
    ensures t < |bits| && bits' == bits[t := true]
  {
    assert ClearRun(bits, t, 1);
    LeftmostIsUnique(bits, t);
  }

  lemma ExtendRange(
    m: Memory, m1: Memory, m2: Memory, pd: FrameNo, first: nat, n: nat, frame: nat, flags: Flags, to: FrameNo)
    requires first + n < RECURSIVE * ENTRIES && to == (frame + n) % FRAME_COUNT
    requires RangeMapped(m, m1, pd, first, n, frame, flags) && SlotsKept(m, m1, pd, flags)
    requires var p := PageNo(first + n);
      && Lookup(m, pd, p).None?
      && ViewUpdated(m1, m2, pd, p, Some(Granted(m1, pd, p.slot, to, flags)))
    ensures RangeMapped(m, m2, pd, first, n + 1, frame, flags)
  {
    var p := PageNo(first + n);
    forall q: Page | q.slot < RECURSIVE && q != p ensures NumberOf(q) != first + n {
      NumberingIsInjective(q, first + n);
    }
    assert NumberOf(p) == first + n;
    assert Granted(m1, pd, p.slot, to, flags) == Granted(m, pd, p.slot, to, flags);
  }

  lemma NumberingIsInjective(q: Page, n: nat)
    requires n < FRAME_COUNT
    ensures NumberOf(q) == n <==> q == PageNo(n)
  {
  }

  /** The recursive slot shows only the directory and its tables, never a free frame. */
  lemma DirectlyBelowRecursive(m: Memory, pd: FrameNo, bits: seq<bool>, t: FrameNo)
    requires Wf(m, pd) && StructureUsed(m, pd, bits) && DirectMapped(m, pd, t) && t < |bits| && !bits[t]
    ensures PhysToVirt(t).slot < RECURSIVE
  {
    if PhysToVirt(t).slot == RECURSIVE {
      assert Structure(m, pd, t);
    }
  }
}
