/** The bytes of the heap as the kernel sees them: words of physical frames, read through the directory. */
module HeapMemory {
  import opened Base
  import opened Paging
  import opened Vmm
  import opened HeapLayout

  // ---- Bytes of a word, least significant first ----

  function WordByte(w: Word, k: nat): (b: Byte)
    requires k < 4
  {
    var v := ValueOf(w);
    (if k == 0 then v else if k == 1 then v / 0x100 else if k == 2 then v / 0x1_0000 else v / 0x100_0000) % 0x100
  }

  function FromBytes(b0: Byte, b1: Byte, b2: Byte, b3: Byte): (w: Word)
    ensures WordByte(w, 0) == b0 && WordByte(w, 1) == b1 && WordByte(w, 2) == b2 && WordByte(w, 3) == b3
  {
    BytesOfSum(b0, b1, b2, b3);
    WordOf(b0 + 0x100 * b1 + 0x1_0000 * b2 + 0x100_0000 * b3)
  }

  lemma BytesOfSum(b0: Byte, b1: Byte, b2: Byte, b3: Byte)
    ensures var v := b0 + 0x100 * b1 + 0x1_0000 * b2 + 0x100_0000 * b3;
      v < TWO32 && v % 0x100 == b0 && v / 0x100 % 0x100 == b1 && v / 0x1_0000 % 0x100 == b2 && v / 0x100_0000 % 0x100 == b3
  {
  }

  /** One byte of a word replaced. */
  function WithByte(w: Word, k: nat, b: Byte): (r: Word)
    requires k < 4
    ensures forall j: nat :: j < 4 ==> WordByte(r, j) == if j == k then b else WordByte(w, j)
  {
    FromBytes(
      if k == 0 then b else WordByte(w, 0), if k == 1 then b else WordByte(w, 1),
      if k == 2 then b else WordByte(w, 2), if k == 3 then b else WordByte(w, 3))
  }

  // ---- Bytes of the address space ----

  function ByteAt(m: Memory, pd: FrameNo, va: Vaddr): Option<Byte> {
    match Lookup(m, pd, PageOf(va))
    case None => None
    case Some(to) => Some(WordByte(m[to.frame][va % PAGE_SIZE / 4], va % 4))
  }

  /** Memory after a store of one byte. */
  function ByteStored(m: Memory, pd: FrameNo, va: Vaddr, b: Byte): Memory
    requires Lookup(m, pd, PageOf(va)).Some?
  {
    var f, i := Lookup(m, pd, PageOf(va)).value.frame, va % PAGE_SIZE / 4;
    Poke(m, f, i, WithByte(m[f][i], va % 4, b))
  }

  /** `f` is a frame that some heap page below the break shows. */
  ghost predicate HeapFrame(m: Memory, pd: FrameNo, brk: nat, f: FrameNo) {
    exists n: nat :: FIRST_PAGE <= n < brk / PAGE_SIZE && FrameAt(m, pd, n) == Some(f)
  }

  /** The heap's table, if it has one. */
  function HeapTable(m: Memory, pd: FrameNo): FrameNo { m[pd][PageNo(FIRST_PAGE).slot].frame }

  /** A sound heap: what every store into it relies on. */
  ghost predicate Sound(m: Memory, pd: FrameNo, bits: seq<bool>, brk: nat) {
    Wf(m, pd) && StructureUsed(m, pd, bits) && brk % PAGE_SIZE == 0 && HEAP_BASE < brk <= HEAP_LIMIT
    && Backed(m, pd, bits, brk / PAGE_SIZE)
  }

  lemma MappedByte(m: Memory, pd: FrameNo, bits: seq<bool>, brk: nat, va: Vaddr)
    requires Sound(m, pd, bits, brk) && HEAP_BASE <= va < SLOT_END
    ensures ByteAt(m, pd, va).Some? <==> va < brk
    ensures Lookup(m, pd, PageOf(va)).Some? <==> va < brk
  {
    HeapBytesAreMapped(m, pd, bits, brk, va);
  }

  /** A store into the heap changes that byte of the address space and no other, and no translation. */
  lemma StoreKeepsHeap(m: Memory, pd: FrameNo, bits: seq<bool>, brk: nat, va: Vaddr, b: Byte)
    requires Sound(m, pd, bits, brk) && HEAP_BASE <= va < brk
    ensures Lookup(m, pd, PageOf(va)).Some?
    ensures var m' := ByteStored(m, pd, va, b);
      && Sound(m', pd, bits, brk) && m'[pd] == m[pd] && SameView(m, m', pd)
      && ByteAt(m', pd, va) == Some(b)
      && forall f: FrameNo :: HeapFrame(m, pd, brk, f) || m'[f] == m[f]
  {
    HeapBytesAreMapped(m, pd, bits, brk, va);
    var f := Lookup(m, pd, PageOf(va)).value.frame;
    var m' := ByteStored(m, pd, va, b);
    assert FrameAt(m, pd, va / PAGE_SIZE) == Some(f) && OwnFrame(m, pd, bits, f);
    OutsideWrite(m, pd, f, m'[f]);
    SameDirectory(m, m', pd);
    assert HeapFrame(m, pd, brk, f);
    SameBacking(m, m', pd, bits, brk);
  }

  lemma SameBacking(m: Memory, m': Memory, pd: FrameNo, bits: seq<bool>, brk: nat)
    requires Sound(m, pd, bits, brk) && Wf(m', pd) && m'[pd] == m[pd] && SameView(m, m', pd)
    ensures Sound(m', pd, bits, brk)
    ensures forall n: nat :: FIRST_PAGE <= n < END_PAGE ==> FrameAt(m', pd, n) == FrameAt(m, pd, n)
  {
    SameDirectory(m, m', pd);
    forall n: nat | FIRST_PAGE <= n < END_PAGE
      ensures FrameAt(m', pd, n) == FrameAt(m, pd, n) && (KernelOnly(m, pd, n) ==> KernelOnly(m', pd, n))
    {
      assert PageNo(n).slot < RECURSIVE && Lookup(m', pd, PageNo(n)) == Lookup(m, pd, PageNo(n));
    }
  }

  lemma OtherByteKept(m: Memory, pd: FrameNo, bits: seq<bool>, brk: nat, va: Vaddr, b: Byte, vb: Vaddr)
    requires Sound(m, pd, bits, brk) && HEAP_BASE <= va < brk && HEAP_BASE <= vb < brk && vb != va
    requires Lookup(m, pd, PageOf(va)).Some? && SameView(m, ByteStored(m, pd, va, b), pd)
    ensures ByteAt(ByteStored(m, pd, va, b), pd, vb) == ByteAt(m, pd, vb)
  {
    hide Sound, Backed, WordByte, WithByte, ByteStored;
    DifferentCells(m, pd, bits, brk, va, vb);
    SameMapping(m, ByteStored(m, pd, va, b), pd, bits, brk, vb);
    OtherCell(
      m, pd, va, b, Lookup(m, pd, PageOf(va)).value.frame, va % PAGE_SIZE,
      Lookup(m, pd, PageOf(vb)).value.frame, vb % PAGE_SIZE);
  }

  lemma SameMapping(m: Memory, m': Memory, pd: FrameNo, bits: seq<bool>, brk: nat, vb: Vaddr)
    requires Sound(m, pd, bits, brk) && HEAP_BASE <= vb < brk && SameView(m, m', pd)
    ensures Lookup(m, pd, PageOf(vb)).Some? && Lookup(m', pd, PageOf(vb)) == Lookup(m, pd, PageOf(vb))
  {
    MappedByte(m, pd, bits, brk, vb);
    assert PageOf(vb).slot < RECURSIVE;
  }

  lemma DifferentCells(m: Memory, pd: FrameNo, bits: seq<bool>, brk: nat, va: Vaddr, vb: Vaddr)
    requires Sound(m, pd, bits, brk) && HEAP_BASE <= va < brk && HEAP_BASE <= vb < brk && vb != va
    ensures Lookup(m, pd, PageOf(va)).Some? && Lookup(m, pd, PageOf(vb)).Some?
    ensures Lookup(m, pd, PageOf(va)).value.frame != Lookup(m, pd, PageOf(vb)).value.frame || va % PAGE_SIZE != vb % PAGE_SIZE
  {
    HeapBytesAreMapped(m, pd, bits, brk, va);
    HeapBytesAreMapped(m, pd, bits, brk, vb);
    hide Backed;
    assert Translate(m, pd, va) != Translate(m, pd, vb);
  }

  lemma OtherCell(m: Memory, pd: FrameNo, va: Vaddr, b: Byte, f: FrameNo, x: nat, g: FrameNo, y: nat)
    requires Lookup(m, pd, PageOf(va)).Some? && Lookup(m, pd, PageOf(va)).value.frame == f && x == va % PAGE_SIZE
    requires y < PAGE_SIZE && (f != g || x != y)
    ensures WordByte(ByteStored(m, pd, va, b)[g][y / 4], y % 4) == WordByte(m[g][y / 4], y % 4)
  {
    hide WordByte, WithByte;
    var m' := ByteStored(m, pd, va, b);
    if f == g && x / 4 == y / 4 {
      assert x % 4 != y % 4 && m'[g][y / 4] == WithByte(m[f][x / 4], x % 4, b);
    } else {
      assert m'[g][y / 4] == m[g][y / 4];
    }
  }

  /** Every frame but the heap's table holds what it held. */
  ghost predicate TableOnly(m: Memory, m': Memory, pd: FrameNo) {
    forall f: FrameNo :: f != HeapTable(m, pd) ==> m'[f] == m[f]
  }

  /** The heap's bytes below the break, but for those from `lo` to `hi`, are what they were. */
  ghost predicate BytesKept(m: Memory, m': Memory, pd: FrameNo, brk: nat, lo: nat, hi: nat) {
    forall va: Vaddr :: HEAP_BASE <= va < brk && !(lo <= va < hi) ==> ByteAt(m', pd, va) == ByteAt(m, pd, va)
  }

  /** Adding pages behind the break changes no byte in front of it. */
  lemma GrowthKeepsBytes(m: Memory, m': Memory, pd: FrameNo, bits: seq<bool>, brk: nat)
    requires Sound(m, pd, bits, brk) && TableOnly(m, m', pd)
    requires forall n: nat :: FIRST_PAGE <= n < brk / PAGE_SIZE ==> FrameAt(m', pd, n) == FrameAt(m, pd, n)
    ensures BytesKept(m, m', pd, brk, 0, 0)
  {
    forall va: Vaddr | HEAP_BASE <= va < brk ensures ByteAt(m', pd, va) == ByteAt(m, pd, va) {
      var n := va / PAGE_SIZE;
      assert PageNo(n) == PageOf(va) && FrameAt(m, pd, n).Some? && OwnFrame(m, pd, bits, FrameAt(m, pd, n).value);
      assert Structure(m, pd, HeapTable(m, pd));
      SameFrameSameByte(m, m', pd, va);
    }
  }

  lemma SameFrameSameByte(m: Memory, m': Memory, pd: FrameNo, va: Vaddr)
    requires FrameAt(m, pd, va / PAGE_SIZE).Some? && FrameAt(m', pd, va / PAGE_SIZE) == FrameAt(m, pd, va / PAGE_SIZE)
    requires m'[FrameAt(m, pd, va / PAGE_SIZE).value] == m[FrameAt(m, pd, va / PAGE_SIZE).value]
    ensures ByteAt(m', pd, va) == ByteAt(m, pd, va)
  {
    hide WordByte;
  }

  // ---- kmemcpy inside the heap ----

  /** The address space is as before, and so is every frame that shows no heap page. */
  ghost predicate HeapOnly(m: Memory, m': Memory, pd: FrameNo, brk: nat) {
    m'[pd] == m[pd] && SameView(m, m', pd) && forall f: FrameNo :: HeapFrame(m, pd, brk, f) || m'[f] == m[f]
  }

  /**
   * After `n` bytes have been copied, lowest first: where the source runs into what was written already it reads that, and
   * no other byte of the heap has changed.
   */
  ghost predicate Copied(m: Memory, m': Memory, pd: FrameNo, brk: nat, dst: nat, src: nat, n: nat)
    requires dst + n <= TWO32 && src + n <= TWO32
  {
    BytesKept(m, m', pd, brk, dst, dst + n) && forall j: nat :: j < n ==> CopiedByte(m, m', pd, dst, src, j)
  }

  ghost predicate CopiedByte(m: Memory, m': Memory, pd: FrameNo, dst: nat, src: nat, j: nat)
    requires dst + j < TWO32 && src + j < TWO32
  {
    ByteAt(m', pd, dst + j) == ByteAt(if dst <= src + j < dst + j then m' else m, pd, src + j)
  }

  lemma NothingCopied(m: Memory, pd: FrameNo, brk: nat, dst: nat, src: nat)
    requires dst <= TWO32 && src <= TWO32
    ensures Copied(m, m, pd, brk, dst, src, 0) && HeapOnly(m, m, pd, brk)
  {
    hide ByteAt, Lookup;
  }

  /** One byte more. */
  lemma OneCopied(
    m: Memory, m1: Memory, m2: Memory, pd: FrameNo, bits: seq<bool>, brk: nat, dst: nat, src: nat, i: nat, b: Byte)
    requires brk <= HEAP_LIMIT && HEAP_BASE <= src && src + i < brk && HEAP_BASE <= dst && dst + i < brk
    requires ByteAt(m1, pd, src + i) == Some(b)
    requires Lookup(m1, pd, PageOf(dst + i)).Some? && m2 == ByteStored(m1, pd, dst + i, b)
    requires Copied(m, m1, pd, brk, dst, src, i) && HeapOnly(m, m1, pd, brk) && Sound(m1, pd, bits, brk)
    ensures Sound(m2, pd, bits, brk) && HeapOnly(m, m2, pd, brk) && Copied(m, m2, pd, brk, dst, src, i + 1)
  {
    hide Sound, ByteAt, ByteStored, HeapFrame, Lookup;
    StoreKeepsHeap(m1, pd, bits, brk, dst + i, b);
    SameHeapFrames(m, m1, pd, brk);
    forall vb: Vaddr | HEAP_BASE <= vb < brk && vb != dst + i ensures ByteAt(m2, pd, vb) == ByteAt(m1, pd, vb) {
      OtherByteKept(m1, pd, bits, brk, dst + i, b, vb);
    }
    forall j: nat | j < i + 1 ensures CopiedByte(m, m2, pd, dst, src, j) {
      CopiedBefore(m, m1, m2, pd, brk, dst, src, i, j);
    }
  }

  lemma SameHeapFrames(m: Memory, m1: Memory, pd: FrameNo, brk: nat)
    requires HeapOnly(m, m1, pd, brk) && brk <= HEAP_LIMIT
    ensures forall f: FrameNo :: HeapFrame(m1, pd, brk, f) <==> HeapFrame(m, pd, brk, f)
  {
    forall n: nat | FIRST_PAGE <= n < brk / PAGE_SIZE ensures FrameAt(m1, pd, n) == FrameAt(m, pd, n) {
      assert PageNo(n).slot < RECURSIVE;
    }
  }

  lemma CopiedBefore(
    m: Memory, m1: Memory, m2: Memory, pd: FrameNo, brk: nat, dst: nat, src: nat, i: nat, j: nat)
    requires j <= i && HEAP_BASE <= src && src + i < brk <= HEAP_LIMIT && HEAP_BASE <= dst && dst + i < brk
    requires Copied(m, m1, pd, brk, dst, src, i) && ByteAt(m2, pd, dst + i) == ByteAt(m1, pd, src + i)
    requires forall vb: Vaddr :: HEAP_BASE <= vb < brk && vb != dst + i ==> ByteAt(m2, pd, vb) == ByteAt(m1, pd, vb)
    ensures CopiedByte(m, m2, pd, dst, src, j)
  {
    hide ByteAt;
    if j < i { assert CopiedByte(m, m1, pd, dst, src, j); }
  }

  /** The first `n` bytes at `to` are those that stood at `from`. */
  ghost predicate Carried(m: Memory, m': Memory, pd: FrameNo, from: nat, to: nat, n: nat)
    requires from + n <= TWO32 && to + n <= TWO32
  {
    forall j: nat :: j < n ==> CarriedByte(m, m', pd, from, to, j)
  }

  ghost predicate CarriedByte(m: Memory, m': Memory, pd: FrameNo, from: nat, to: nat, j: nat)
    requires from + j < TWO32 && to + j < TWO32
  {
    ByteAt(m', pd, to + j) == ByteAt(m, pd, from + j)
  }

  /** The part of the source that the destination does not run into arrives as it stood. */
  lemma DisjointIsCarried(m: Memory, m': Memory, pd: FrameNo, brk: nat, dst: nat, src: nat, n: nat, k: nat)
    requires dst + n <= TWO32 && src + n <= TWO32 && Copied(m, m', pd, brk, dst, src, n)
    requires k <= n && (src + k <= dst || dst + n <= src)
    ensures Carried(m, m', pd, src, dst, k)
  {
    hide ByteAt;
    forall j: nat | j < k ensures CarriedByte(m, m', pd, src, dst, j) {
      assert CopiedByte(m, m', pd, dst, src, j);
    }
  }
}
