/** Shared result types and machine constants. */
module Base {
  datatype Option<+T> = None | Some(value: T)

  /** `Halted` is the state the machine never leaves: a KPANIC, or a page fault (whose handler panics). */
  datatype Result<+T> = Returned(value: T) | Halted

  const PAGE_SIZE := 4096
  const MIN_BASE := 0x0010_0000
  const TWO32 := 0x1_0000_0000
  const TWO64 := 0x1_0000_0000_0000_0000

  /** uint32_t arithmetic. */
  function Wrap32(x: int): (w: nat)
    ensures w < TWO32
    ensures 0 <= x < TWO32 ==> w == x
  {
    x % TWO32
  }

  lemma Wrap32Succ(x: nat)
    ensures Wrap32(Wrap32(x) + 1) == Wrap32(x + 1)
  {
  }

  lemma Wrap32Pred(x: int)
    ensures Wrap32(Wrap32(x) - 1) == Wrap32(x - 1)
  {
  }

  lemma Wrap32Add(x: nat, n: nat)
    ensures Wrap32(Wrap32(x) + n) == Wrap32(x + n)
  {
  }

  type Vaddr = n: nat | n < TWO32

  type Byte = n: nat | n < 256
  type Bytes = seq<Byte>

  /** The character of a C string at `p`; past the end there is the terminator. */
  function At(s: string, p: nat): char {
    if p < |s| then s[p] else '\0'
  }
}
