/** 32-bit two-level paging (Intel SDM volume 3A, section 4.3) over a physical memory of 2^20 frames of 1024 words. */
module Paging {
  import opened Base

  const ENTRIES := 1024
  const FRAME_COUNT := 0x10_0000
  const RECURSIVE := 1023        // the directory slot that points back at the directory
  const KERNEL_SLOT := 768       // KVMM_PD_INDEX: first slot of the kernel half

  type FrameNo = n: nat | n < FRAME_COUNT
  type Index = n: nat | n < ENTRIES

  /** A 32-bit word, cut as the page-table bit-fields cut it: three flags, nine other bits, twenty of frame number. */
  datatype Word = Word(present: bool, rw: bool, user: bool, rest: nat, frame: FrameNo)

  const ZERO := Word(false, false, false, 0, 0)

  function WordOf(n: Vaddr): (w: Word)
    ensures ValueOf(w) == n && w.rest < 512
  {
    var n1 := n / 2;
    var n2 := n1 / 2;
    var n3 := n2 / 2;
    Word(n % 2 == 1, n1 % 2 == 1, n2 % 2 == 1, n3 % 512, n3 / 512)
  }

  function ValueOf(w: Word): int {
    (if w.present then 1 else 0) + (if w.rw then 2 else 0) + (if w.user then 4 else 0) + 8 * w.rest + 4096 * w.frame
  }

  type Frame = s: seq<Word> | |s| == ENTRIES witness seq(ENTRIES, _ => ZERO)
  type Memory = m: seq<Frame> | |m| == FRAME_COUNT witness seq(FRAME_COUNT, _ => seq(ENTRIES, _ => ZERO))

  function Zeros(n: nat): (s: seq<Word>)
    ensures |s| == n && forall i :: 0 <= i < n ==> s[i] == ZERO
  {
    if n == 0 then [] else Zeros(n - 1) + [ZERO]
  }

  const ZERO_FRAME: Frame := Zeros(ENTRIES)

  /** A virtual page: its directory slot and its index in that slot's table. */
  datatype Page = Page(slot: Index, index: Index)

  function PageNo(n: nat): Page
    requires n < FRAME_COUNT
  {
    Page(n / ENTRIES, n % ENTRIES)
  }

  function PageOf(va: Vaddr): Page {
    PageNo(va / PAGE_SIZE)
  }

  datatype Mapping = Mapping(frame: FrameNo, rw: bool, user: bool)

  /** Both levels must be present; a right holds when both levels grant it. */
  function Lookup(m: Memory, pd: FrameNo, p: Page): Option<Mapping> {
    var pde := m[pd][p.slot];
    if !pde.present then None
    else
      var pte := m[pde.frame][p.index];
      if !pte.present then None else Some(Mapping(pte.frame, pde.rw && pte.rw, pde.user && pte.user))
  }

  function Translate(m: Memory, pd: FrameNo, va: Vaddr): Option<nat> {
    match Lookup(m, pd, PageOf(va))
    case None => None
    case Some(mapping) => Some(mapping.frame * PAGE_SIZE + va % PAGE_SIZE)
  }

  function Poke(m: Memory, f: FrameNo, i: Index, w: Word): Memory {
    m[f := m[f][i := w]]
  }

  // ---- The windows of the recursive slot ----

  const PD_PAGE := Page(RECURSIVE, RECURSIVE)   // KVMM_RECURSIVE_PD_ADDR

  function TablePage(slot: Index): Page {       // KVMM_GET_PT_VIA_PDE
    Page(RECURSIVE, slot)
  }

  lemma RecursiveAddresses(slot: Index)
    ensures PageOf(0xFFFF_F000) == PD_PAGE
    ensures PageOf(0xFFC0_0000 + slot * 4096) == TablePage(slot)
  {
  }

  /** The recursive slot points back at the directory. */
  predicate SelfMapped(m: Memory, pd: FrameNo) {
    m[pd][RECURSIVE].present && m[pd][RECURSIVE].frame == pd
  }

  /** The directory maps itself, and its tables are frames of their own, one per slot. */
  ghost predicate Wf(m: Memory, pd: FrameNo) {
    && SelfMapped(m, pd)
    && (forall k: Index :: k < RECURSIVE && m[pd][k].present ==> m[pd][k].frame != pd)
    && (forall j: Index, k: Index :: j < k < RECURSIVE && m[pd][j].present && m[pd][k].present ==> m[pd][j].frame != m[pd][k].frame)
  }

  ghost predicate Structure(m: Memory, pd: FrameNo, f: FrameNo) {
    f == pd || exists k: Index :: k < RECURSIVE && m[pd][k].present && m[pd][k].frame == f
  }

  ghost predicate SameView(m: Memory, m': Memory, pd: FrameNo) {
    forall p: Page :: p.slot < RECURSIVE ==> Lookup(m', pd, p) == Lookup(m, pd, p)
  }

  /** The view of `m'` is the view of `m` with page `p` (re)mapped to `to`, or unmapped. */
  ghost predicate ViewUpdated(m: Memory, m': Memory, pd: FrameNo, p: Page, to: Option<Mapping>) {
    forall q: Page :: q.slot < RECURSIVE ==> Lookup(m', pd, q) == if q == p then to else Lookup(m, pd, q)
  }

  /** Through the recursive slot the directory and each present table appear as pages. */
  lemma RecursiveWindows(m: Memory, pd: FrameNo, slot: Index)
    requires SelfMapped(m, pd)
    ensures Lookup(m, pd, PD_PAGE).Some? && Lookup(m, pd, PD_PAGE).value.frame == pd
    ensures Lookup(m, pd, TablePage(slot)).Some? <==> m[pd][slot].present
    ensures m[pd][slot].present ==> Lookup(m, pd, TablePage(slot)).value.frame == m[pd][slot].frame
  {
  }

  /** Writing one table entry changes the translation of that one page. */
  lemma EntryWrite(m: Memory, pd: FrameNo, p: Page, w: Word)
    requires Wf(m, pd) && p.slot < RECURSIVE && m[pd][p.slot].present
    ensures var m' := Poke(m, m[pd][p.slot].frame, p.index, w);
      && Wf(m', pd) && m'[pd] == m[pd]
      && ViewUpdated(
           m, m', pd, p, if w.present then Some(Mapping(w.frame, m[pd][p.slot].rw && w.rw, m[pd][p.slot].user && w.user)) else None)
  {
    var t := m[pd][p.slot].frame;
    var m' := Poke(m, t, p.index, w);
    assert m'[pd] == m[pd];
    forall q: Page | q.slot < RECURSIVE && q != p
      ensures Lookup(m', pd, q) == Lookup(m, pd, q)
    {
      if m[pd][q.slot].present && q.slot != p.slot {
        assert m[pd][q.slot].frame != t;
      }
    }
  }

  lemma SameDirectory(m: Memory, m': Memory, pd: FrameNo)
    requires m'[pd] == m[pd]
    ensures forall f: FrameNo :: Structure(m', pd, f) <==> Structure(m, pd, f)
  {
    forall f: FrameNo ensures Structure(m', pd, f) <==> Structure(m, pd, f) {
      if Structure(m', pd, f) && f != pd {
        var k: Index :| k < RECURSIVE && m'[pd][k].present && m'[pd][k].frame == f;
        assert m[pd][k].frame == f;
      }
      if Structure(m, pd, f) && f != pd {
        var k: Index :| k < RECURSIVE && m[pd][k].present && m[pd][k].frame == f;
        assert m'[pd][k].frame == f;
      }
    }
  }

  /** Writing outside the directory and its tables changes no translation. */
  lemma OutsideWrite(m: Memory, pd: FrameNo, f: FrameNo, content: Frame)
    requires Wf(m, pd) && !Structure(m, pd, f)
    ensures Wf(m[f := content], pd) && SameView(m, m[f := content], pd) && m[f := content][pd] == m[pd]
    ensures forall g: FrameNo :: Structure(m[f := content], pd, g) <==> Structure(m, pd, g)
  {
    assert m[f := content][pd] == m[pd];
  }

  /** Putting a zeroed frame in an empty slot changes no translation. */
  lemma InstallTable(m: Memory, pd: FrameNo, slot: Index, w: Word)
    requires Wf(m, pd) && slot < RECURSIVE && !m[pd][slot].present
    requires w.present && !Structure(m, pd, w.frame) && m[w.frame] == ZERO_FRAME
    ensures var m' := Poke(m, pd, slot, w); Wf(m', pd) && SameView(m, m', pd)
    ensures var m' := Poke(m, pd, slot, w); forall f: FrameNo :: Structure(m', pd, f) <==> f == w.frame || Structure(m, pd, f)
  {
    var m' := Poke(m, pd, slot, w);
    forall q: Page | q.slot < RECURSIVE
      ensures Lookup(m', pd, q) == Lookup(m, pd, q)
    {
      if q.slot != slot && m[pd][q.slot].present {
        assert m'[pd][q.slot] == m[pd][q.slot] && m[pd][q.slot].frame != pd;
      }
    }
    forall f: FrameNo ensures Structure(m', pd, f) <==> f == w.frame || Structure(m, pd, f) {
      if f == w.frame { assert m'[pd][slot].frame == f; }
      if Structure(m, pd, f) && f != pd {
        var k: Index :| k < RECURSIVE && m[pd][k].present && m[pd][k].frame == f;
        assert m'[pd][k] == m[pd][k];
      }
      if Structure(m', pd, f) && f != pd {
        var k: Index :| k < RECURSIVE && m'[pd][k].present && m'[pd][k].frame == f;
        assert k == slot || m'[pd][k] == m[pd][k];
      }
    }
  }
}
