/** The physical page allocator: a byte bitmap, a free-page counter, and a leftmost first-fit search. */
module Pmm {
  import opened Base
  import opened PageBits

  class PageAllocator {
    const bitmap: array<bv8>   // kpmm_bitmap, kpmm_bitmap_bytes_amout bytes long
    var freePages: nat         // kpmm_free_pages_amount

    ghost function Used(): (bits: seq<bool>)
      reads bitmap
    {
      Bits(bitmap[..])
    }

    /** The counter counts the clear bits, and every page has a 32-bit address. */
    ghost predicate Valid()
      reads this`freePages, bitmap
    {
      8 * bitmap.Length <= TWO32 / PAGE_SIZE && freePages == ClearCount(Used())
    }

    constructor (bitmap: array<bv8>, freePages: nat)
      ensures this.bitmap == bitmap && this.freePages == freePages
    {
      this.bitmap, this.freePages := bitmap, freePages;
    }

    /** kpmm_bitmap_get_next: the lowest clear bit. */
    method GetNext() returns (r: Result<nat>)
      ensures r.Halted? <==> NoClearRun(Used(), 1)
      ensures r.Returned? ==> LeftmostRun(Used(), r.value, 1)
    {
      ghost var bits := Used();
      for i := 0 to bitmap.Length
        invariant UsedRun(bits, 0, 8 * i)
      {
        var bit := FirstClearBit(bitmap[i]);
        UsedInByte(bitmap[..], i, if bit < 0 then 8 else bit);
        if bit >= 0 {
          BitAt(bitmap[..], i, bit);
          UsedPrefix(bits, 8 * i + bit);
          assert ClearRun(bits, 8 * i + bit, 1);
          return Returned(8 * i + bit);
        }
      }
      UsedPrefix(bits, |bits|);
      return Halted;
    }

    /** kbyte_has_free_bit */
    static method FirstClearBit(b: bv8) returns (bit: int)
      ensures -1 <= bit < 8
      ensures bit >= 0 ==> !BitOf(b, bit)
      ensures forall j :: 0 <= j < (if bit < 0 then 8 else bit) ==> BitOf(b, j)
    {
      for j := 0 to 8
        invariant forall k :: 0 <= k < j ==> BitOf(b, k)
      {
        if !BitOf(b, j) { return j; }
      }
      return -1;
    }

    /** The inner loop of kpmm_bitmap_get_n_continuous: the eight bits of byte `i`. */
    method ScanByte(i: nat, n: nat, start0: nat, length0: nat, ghost bits: seq<bool>, ghost want: nat)
      returns (found: bool, start: nat, length: nat)
      requires i < bitmap.Length && bits == Used() && want == (if n == 0 then 1 else n)
      requires SearchState(bits, 8 * i, start0, length0, want)
      ensures found ==> LeftmostRun(bits, start, want) && !NoClearRun(bits, want)
      ensures !found ==> SearchState(bits, 8 * (i + 1), start, length, want)
    {
      hide SearchState, LeftmostRun, NoClearRun, BitOf, Bits;
      start, length := start0, length0;
      for j := 0 to 8
        invariant SearchState(bits, 8 * i + j, start, length, want)
      {
        BitAt(bitmap[..], i, j);
        SearchStep(bits, 8 * i + j, start, length, want);
        SearchBounds(bits, 8 * i + j, start, length, want);
        if !BitOf(bitmap[i], j) {
          if length == 0 { start := 8 * i + j; }
          length := length + 1;
          if length >= n {
            return true, start, length;
          }
        } else {
          length := 0;
        }
      }
      found := false;
    }

    /** kpmm_bitmap_get_n_continuous: a request for 0 pages is answered like one for 1. */
    method GetNContinuous(n: nat) returns (r: Result<nat>)
      ensures r.Halted? <==> NoClearRun(Used(), if n == 0 then 1 else n)
      ensures r.Returned? ==> LeftmostRun(Used(), r.value, if n == 0 then 1 else n)
    {
      hide SearchState, LeftmostRun, NoClearRun, BitOf, Bits;
      ghost var want := if n == 0 then 1 else n;
      ghost var bits := Used();
      var start: nat, length: nat := 0, 0;
      SearchStart(bits, want);
      for i := 0 to bitmap.Length
        invariant SearchState(bits, 8 * i, start, length, want)
      {
        var found;
        found, start, length := ScanByte(i, n, start, length, bits, want);
        if found {
          return Returned(start);
        }
      }
      SearchEnd(bits, start, length, want);
      return Halted;
    }

    /** kpmm_bitmap_set_value */
    method SetValue(bit: nat, used: bool) returns (r: Result<bool>)
      modifies bitmap
      ensures r.Halted? <==> bit >= |old(Used())|
      ensures r.Returned? ==> r.value && Used() == old(Used())[bit := used]
      ensures r.Halted? ==> Used() == old(Used())
    {
      var byte := bit / 8;
      if byte >= bitmap.Length {
        return Halted;
      }
      BitsOfUpdate(bitmap[..], byte, bit % 8, used);
      ghost var before := bitmap[..];
      bitmap[byte] := WithBit(bitmap[byte], bit % 8, used);
      assert bitmap[..] == before[byte := WithBit(before[byte], bit % 8, used)];
      return Returned(true);
    }

    /** kpmm_alloc_pages: 0 (NULL) when nothing is asked or nothing is free, a panic when no run is long enough. */
    method AllocPages(n: nat) returns (r: Result<nat>)
      modifies this`freePages, bitmap
      ensures AllocStep(old(Used()), old(freePages), n, r, Used(), freePages)
      ensures old(Valid()) ==> Valid() && AllocOutcome(old(Used()), n, r, Used())
    {
      hide AllocStep, AllocOutcome, NoClearRun, LeftmostRun, Bits, SetRun, Wrap32, ClearCount, UsedRun;
      NothingGiven(Used(), freePages, n);
      if n == 0 || freePages == 0 {
        return Returned(0);
      }
      var found := GetNContinuous(n);
      if found.Halted? {
        return Halted;
      }
      var start := found.value;
      ghost var before, count := Used(), freePages;
      LeftmostIsClear(before, start, n);
      TakeRun(start, n);
      RunGiven(before, count, n, start, Used(), freePages);
      return Returned(PageAddr(start));
    }

    /** The loop of kpmm_alloc_pages. */
    method TakeRun(start: nat, n: nat)
      requires n > 0 && start + n <= |Used()|
      modifies this`freePages, bitmap
      ensures Used() == SetRun(old(Used()), start, n, true) && freePages == Wrap32(old(freePages) - n)
    {
      hide Bits, SetRun, Wrap32;
      ghost var before := Used();
      var i := 0;
      while i < n
        invariant 0 <= i <= n
        invariant Used() == if i == 0 then before else SetRun(before, start, i, true)
        invariant freePages == if i == 0 then old(freePages) else Wrap32(old(freePages) - i)
      {
        var done := SetValue(start + i, true);
        FirstOfRun(before, start, i, true);
        Wrap32Pred(old(freePages) - i);
        freePages := Wrap32(freePages - 1);
        i := i + 1;
      }
    }

    /** kpmm_free_pages: clears the bits and counts every one of them, whether it was set or not. */
    method FreePages(addr: Vaddr, n: nat) returns (r: Result<bool>)
      modifies this`freePages, bitmap
      ensures n == 0 ==> r == Returned(false) && Used() == old(Used()) && freePages == old(freePages)
      ensures n > 0 ==> (r.Halted? <==> addr / PAGE_SIZE + n > |old(Used())|)
      ensures n > 0 && r.Returned? ==>
        r.value && Used() == SetRun(old(Used()), addr / PAGE_SIZE, n, false)
        && freePages == Wrap32(old(freePages) + n)
      ensures old(Valid()) && n > 0 && r.Returned? ==> (Valid() <==> UsedRun(old(Used()), addr / PAGE_SIZE, n))
    {
      if n == 0 {
        return Returned(false);
      }
      var page := addr / PAGE_SIZE;
      ghost var before := Used();
      r := ClearRange(page, n);
      if r.Returned? && 8 * bitmap.Length <= TWO32 / PAGE_SIZE && old(freePages) == ClearCount(before) {
        FreedRun(before, page, n, old(freePages));
      }
    }

    /** The loop of kpmm_free_pages. */
    method ClearRange(page: nat, n: nat) returns (r: Result<bool>)
      requires n > 0
      modifies this`freePages, bitmap
      ensures r.Halted? <==> page + n > |old(Used())|
      ensures r.Returned? ==> r.value && Used() == SetRun(old(Used()), page, n, false)
      ensures r.Returned? ==> freePages == Wrap32(old(freePages) + n)
    {
      ghost var before := Used();
      hide Bits, SetRun, Wrap32;
      var i := 0;
      while i < n
        invariant 0 <= i <= n && (i == 0 || page + i <= |before|)
        invariant Used() == if i == 0 then before else SetRun(before, page, i, false)
        invariant freePages == if i == 0 then old(freePages) else Wrap32(old(freePages) + i)
      {
        var done := SetValue(page + i, false);
        if done.Halted? {
          return Halted;
        }
        FirstOfRun(before, page, i, false);
        Wrap32Succ(old(freePages) + i);
        freePages := Wrap32(freePages + 1);
        i := i + 1;
      }
      return Returned(true);
    }
  }

  lemma FirstOfRun(bits: seq<bool>, start: nat, i: nat, used: bool)
    requires start + i < |bits|
    ensures SetRun(bits, start, i + 1, used) == (if i == 0 then bits else SetRun(bits, start, i, used))[start + i := used]
  {
  }

  /** The counter keeps counting clear bits exactly when every freed page was in use. */
  lemma FreedRun(bits: seq<bool>, start: nat, n: nat, freePages: nat)
    requires start + n <= |bits| <= TWO32 / PAGE_SIZE && freePages == ClearCount(bits)
    ensures Wrap32(freePages + n) == ClearCount(SetRun(bits, start, n, false)) <==> UsedRun(bits, start, n)
  {
    ClearCountSetRun(bits, start, n, false);
    UsedInIsFull(bits, start, n);
  }

  /** kpmm_bitmap_get_page_addr */
  function PageAddr(page: nat): (addr: Vaddr)
    ensures page < TWO32 / PAGE_SIZE ==> addr % PAGE_SIZE == 0 && addr / PAGE_SIZE == page
  {
    page * PAGE_SIZE % TWO32
  }

  ghost predicate NoClearRun(bits: seq<bool>, n: nat) {
    forall s: nat :: !ClearRun(bits, s, n)
  }

  lemma UsedInByte(bytes: seq<bv8>, i: nat, n: nat)
    requires i < |bytes| && n <= 8 && forall j :: 0 <= j < n ==> BitOf(bytes[i], j)
    ensures UsedRun(Bits(bytes), 8 * i, n)
  {
    hide BitOf, Bits;
    forall k: nat | 8 * i <= k < 8 * i + n ensures k < |Bits(bytes)| && Bits(bytes)[k] {
      var j := k - 8 * i;
      BitAt(bytes, i, j);
    }
  }

  lemma UsedPrefix(bits: seq<bool>, n: nat)
    requires UsedRun(bits, 0, n)
    ensures forall s: nat :: s < n ==> !ClearRun(bits, s, 1)
    ensures n == |bits| ==> NoClearRun(bits, 1)
  {
    forall s: nat | s < n ensures !ClearRun(bits, s, 1) { assert bits[s]; }
  }

  /** No run of `want` ends at or before `at`; the clear run ending at `at` is `length` long and maximal. */
  ghost predicate SearchState(bits: seq<bool>, at: nat, start: nat, length: nat, want: nat) {
    && length <= at <= |bits| && length < want
    && (length > 0 ==> start == at - length)
    && ClearRun(bits, at - length, length)
    && (forall s: nat :: s + want <= at ==> !ClearRun(bits, s, want))
    && (length < at ==> bits[at - length - 1])
  }

  lemma SearchStart(bits: seq<bool>, want: nat)
    requires want > 0
    ensures SearchState(bits, 0, 0, 0, want)
  {
  }

  lemma SearchEnd(bits: seq<bool>, start: nat, length: nat, want: nat)
    requires SearchState(bits, |bits|, start, length, want)
    ensures NoClearRun(bits, want)
  {
  }

  lemma SearchBounds(bits: seq<bool>, at: nat, start: nat, length: nat, want: nat)
    requires SearchState(bits, at, start, length, want)
    ensures length < want && at <= |bits|
  {
  }

  /** Looking at one more bit: a run of `want` can only end there if the counted one does. */
  lemma SearchStep(bits: seq<bool>, at: nat, start: nat, length: nat, want: nat)
    requires SearchState(bits, at, start, length, want) && at < |bits|
    ensures bits[at] ==> SearchState(bits, at + 1, start, 0, want)
    ensures !bits[at] && length + 1 < want ==>
      SearchState(bits, at + 1, if length == 0 then at else start, length + 1, want)
    ensures !bits[at] && length + 1 == want ==> LeftmostRun(bits, if length == 0 then at else start, want)
    ensures !bits[at] && length + 1 == want ==> !NoClearRun(bits, want)
  {
    if bits[at] || length + 1 < want {
      forall s: nat | s + want <= at + 1 ensures !ClearRun(bits, s, want) {
        if s + want == at + 1 {
          assert if bits[at] then s <= at < s + want else s <= at - length - 1 < s + want;
        }
      }
    }
  }

  lemma TakenRun(bits: seq<bool>, start: nat, n: nat)
    requires ClearRun(bits, start, n)
    ensures SetRun(bits, start, 0, true) == bits
    ensures ClearCount(SetRun(bits, start, n, true)) == ClearCount(bits) - n
  {
    UsedInClearRun(bits, start, n);
    ClearCountSetRun(bits, start, n, true);
  }

  /**
   * What an allocation of `n` pages answers and does, whatever the bitmap and the counter: the leftmost run is taken, and
   * its address is cut to 32 bits.
   */
  ghost predicate AllocStep(before: seq<bool>, count: nat, n: nat, r: Result<nat>, after: seq<bool>, count': nat) {
    if n == 0 || count == 0 then
      r == Returned(0) && after == before && count' == count
    else if NoClearRun(before, n) then
      r == Halted && after == before && count' == count
    else
      exists start: nat :: TakenAt(before, count, n, start, after, count') && r == Returned(PageAddr(start))
  }

  ghost predicate TakenAt(before: seq<bool>, count: nat, n: nat, start: nat, after: seq<bool>, count': nat) {
    && start + n <= |before| && LeftmostRun(before, start, n)
    && after == SetRun(before, start, n, true) && count' == Wrap32(count - n)
  }

  lemma NothingGiven(bits: seq<bool>, count: nat, n: nat)
    ensures n == 0 || count == 0 ==> AllocStep(bits, count, n, Returned(0), bits, count)
    ensures n > 0 && count > 0 && NoClearRun(bits, n) ==> AllocStep(bits, count, n, Halted, bits, count)
    ensures (n == 0 || count == 0) && count == ClearCount(bits) ==> AllocOutcome(bits, n, Returned(0), bits)
    ensures n > 0 && count > 0 && NoClearRun(bits, n) && count == ClearCount(bits) ==>
      AllocOutcome(bits, n, Halted, bits)
  {
    ClearCountPositive(bits);
  }

  lemma LeftmostIsClear(bits: seq<bool>, start: nat, n: nat)
    requires LeftmostRun(bits, start, n)
    ensures start + n <= |bits| && ClearRun(bits, start, n)
  {
  }

  lemma RunGiven(before: seq<bool>, count: nat, n: nat, start: nat, after: seq<bool>, count': nat)
    requires n > 0 && count > 0 && TakenAt(before, count, n, start, after, count')
    ensures AllocStep(before, count, n, Returned(PageAddr(start)), after, count')
    ensures count == ClearCount(before) < TWO32 ==> count' == ClearCount(after)
    ensures count == ClearCount(before) && |before| <= TWO32 / PAGE_SIZE ==>
      AllocOutcome(before, n, Returned(PageAddr(start)), after)
  {
    assert ClearRun(before, start, n) && !before[start];
    TakenRun(before, start, n);
  }

  /** The addresses of `n` pages from `addr` on are those of pages start, start + 1, ... */
  ghost predicate NamesPages(addr: nat, start: nat, n: nat) {
    forall k: nat :: k < n ==> Wrap32(addr + PAGE_SIZE * k) / PAGE_SIZE == start + k
  }

  /** The 32-bit address of a run names its pages exactly when the run ends by 4 GiB. */
  lemma AddressNamesIff(start: nat, n: nat)
    requires n > 0
    ensures NamesPages(PageAddr(start), start, n) <==> start + n <= TWO32 / PAGE_SIZE
  {
    if start + n <= TWO32 / PAGE_SIZE {
      forall k: nat | k < n ensures Wrap32(PageAddr(start) + PAGE_SIZE * k) / PAGE_SIZE == start + k {
        assert (start + k) * PAGE_SIZE < TWO32;
      }
    } else {
      assert Wrap32(PageAddr(start) + PAGE_SIZE * (n - 1)) / PAGE_SIZE < TWO32 / PAGE_SIZE;
    }
  }

  /**
   * Example: with only page 2^20 free, at 4 GiB, a caller gets NULL and the page is lost; with only page 2^20 + 256 free it
   * gets the page at 1 MiB, the first of the kernel.
   */
  lemma AddressesWrap(bits: seq<bool>, count: nat, page: nat, r: Result<nat>, after: seq<bool>, count': nat)
    requires count > 0 && page < |bits| && (forall i :: 0 <= i < |bits| ==> (bits[i] <==> i != page))
    requires AllocStep(bits, count, 1, r, after, count')
    ensures page == 0x10_0000 ==> r == Returned(0) && after[page]
    ensures page == 0x10_0100 ==> r == Returned(MIN_BASE) && after[page]
  {
    assert ClearRun(bits, page, 1);
    var start: nat :| TakenAt(bits, count, 1, start, after, count') && r == Returned(PageAddr(start));
    assert !bits[start];
  }

  /** What an allocation of `n` pages answers and does to the bitmap, for bitmaps up to 4 GiB and a counter in step. */
  ghost predicate AllocOutcome(before: seq<bool>, n: nat, r: Result<nat>, after: seq<bool>) {
    if n == 0 || UsedRun(before, 0, |before|) then
      r == Returned(0) && after == before
    else if NoClearRun(before, n) then
      r == Halted && after == before
    else
      && r.Returned? && r.value % PAGE_SIZE == 0
      && LeftmostRun(before, r.value / PAGE_SIZE, n)
      && after == SetRun(before, r.value / PAGE_SIZE, n, true)
  }
}
