/** The page bitmap seen as one boolean per page (true = used), and the byte encoding of it. */
module PageBits {
  import opened Base

  // ---- One bit of a byte ----

  function BitOf(b: bv8, j: nat): bool
    requires j < 8
  {
    b & (1 << j) != 0
  }

  function WithBit(b: bv8, j: nat, used: bool): bv8
    requires j < 8
  {
    if used then b | (1 << j) else b & !(1 << j)
  }

  lemma WithBitChangesOneBit(b: bv8, j: nat, used: bool, k: nat)
    requires j < 8 && k < 8
    ensures BitOf(WithBit(b, j, used), k) == if k == j then used else BitOf(b, k)
  {
    PowersAreDistinctBits(j, k);
    MaskFrames(b, 1 << j, 1 << k);
  }

  /** Setting or clearing the bits of `m` leaves the bits of a disjoint mask `n` alone. */
  lemma MaskFrames(b: bv8, m: bv8, n: bv8)
    ensures m & n == 0 ==> (b | m) & n == b & n && (b & !m) & n == b & n
    ensures m == n ==> (b | m) & n == n && (b & !m) & n == 0
  {
  }

  lemma PowersAreDistinctBits(j: nat, k: nat)
    requires j < 8 && k < 8
    ensures var m: bv8 := 1 << j; var n: bv8 := 1 << k; m != 0 && (m == n <==> j == k) && (j != k ==> m & n == 0)
  {
    assert forall a: nat | a < 8 :: a in [0, 1, 2, 3, 4, 5, 6, 7];
    assert (1 as bv8) << 0 == 1 && (1 as bv8) << 1 == 2 && (1 as bv8) << 2 == 4 && (1 as bv8) << 3 == 8;
    assert (1 as bv8) << 4 == 16 && (1 as bv8) << 5 == 32 && (1 as bv8) << 6 == 64 && (1 as bv8) << 7 == 128;
  }

  function ByteBits(b: bv8): (bits: seq<bool>)
    ensures |bits| == 8
  {
    [BitOf(b, 0), BitOf(b, 1), BitOf(b, 2), BitOf(b, 3), BitOf(b, 4), BitOf(b, 5), BitOf(b, 6), BitOf(b, 7)]
  }

  /** Page 8 * i + j is bit j of byte i. */
  function Bits(bytes: seq<bv8>): (bits: seq<bool>)
    ensures |bits| == 8 * |bytes|
  {
    if bytes == [] then [] else Bits(bytes[..|bytes| - 1]) + ByteBits(bytes[|bytes| - 1])
  }

  lemma {:induction false} BitAt(bytes: seq<bv8>, i: nat, j: nat)
    requires i < |bytes| && j < 8
    ensures Bits(bytes)[8 * i + j] == BitOf(bytes[i], j)
  {
    var last := |bytes| - 1;
    if i < last {
      BitAt(bytes[..last], i, j);
    } else {
      ByteBitsAt(bytes[last], j);
    }
  }

  lemma ByteBitsOfUpdate(b: bv8, j: nat, used: bool)
    requires j < 8
    ensures ByteBits(WithBit(b, j, used)) == ByteBits(b)[j := used]
  {
    forall k: nat | k < 8 ensures ByteBits(WithBit(b, j, used))[k] == ByteBits(b)[j := used][k] {
      WithBitChangesOneBit(b, j, used, k);
      ByteBitsAt(b, k);
      ByteBitsAt(WithBit(b, j, used), k);
    }
  }

  lemma ByteBitsAt(b: bv8, k: nat)
    requires k < 8
    ensures ByteBits(b)[k] == BitOf(b, k)
  {
    assert k in [0, 1, 2, 3, 4, 5, 6, 7];
  }

  lemma {:induction false} BitsOfUpdate(bytes: seq<bv8>, i: nat, j: nat, used: bool)
    requires i < |bytes| && j < 8
    ensures Bits(bytes[i := WithBit(bytes[i], j, used)]) == Bits(bytes)[8 * i + j := used]
  {
    hide ByteBits, BitOf, WithBit;
    var last := |bytes| - 1;
    var after := bytes[i := WithBit(bytes[i], j, used)];
    if i < last {
      BitsOfUpdate(bytes[..last], i, j, used);
      assert after[..last] == bytes[..last][i := WithBit(bytes[i], j, used)];
    } else {
      assert after[..last] == bytes[..last];
      ByteBitsOfUpdate(bytes[i], j, used);
    }
  }

  // ---- Runs of clear bits ----

  predicate ClearRun(bits: seq<bool>, start: nat, n: nat) {
    start + n <= |bits| && forall i :: start <= i < start + n ==> !bits[i]
  }

  predicate UsedRun(bits: seq<bool>, start: nat, n: nat) {
    start + n <= |bits| && forall i :: start <= i < start + n ==> bits[i]
  }

  predicate LeftmostRun(bits: seq<bool>, start: nat, n: nat) {
    ClearRun(bits, start, n) && forall s: nat :: s < start ==> !ClearRun(bits, s, n)
  }

  lemma LeftmostIsUnique(bits: seq<bool>, start: nat)
    requires LeftmostRun(bits, start, 1)
    ensures forall s: nat :: LeftmostRun(bits, s, 1) ==> s == start
  {
    forall s: nat | LeftmostRun(bits, s, 1) ensures s == start {
      assert ClearRun(bits, s, 1) && ClearRun(bits, start, 1);
    }
  }

  function SetRun(bits: seq<bool>, start: nat, n: nat, used: bool): (after: seq<bool>)
    requires start + n <= |bits|
    ensures |after| == |bits|
    ensures forall i :: 0 <= i < |bits| ==> after[i] == if start <= i < start + n then used else bits[i]
  {
    seq(|bits|, i requires 0 <= i < |bits| => if start <= i < start + n then used else bits[i])
  }

  // ---- Counting clear bits ----

  function ClearCount(bits: seq<bool>): (c: nat)
    ensures c <= |bits|
  {
    if bits == [] then 0 else ClearCount(bits[..|bits| - 1]) + if bits[|bits| - 1] then 0 else 1
  }

  lemma {:induction false} ClearCountUpdate(bits: seq<bool>, i: nat, used: bool)
    requires i < |bits|
    ensures ClearCount(bits[i := used]) == ClearCount(bits) + (if bits[i] then 1 else 0) - (if used then 1 else 0)
  {
    var last := |bits| - 1;
    if i == last {
      assert bits[i := used][..last] == bits[..last];
    } else {
      assert bits[i := used][..last] == bits[..last][i := used];
      ClearCountUpdate(bits[..last], i, used);
    }
  }

  lemma {:induction false} ClearCountPositive(bits: seq<bool>)
    ensures ClearCount(bits) > 0 <==> exists i :: 0 <= i < |bits| && !bits[i]
  {
    if bits != [] {
      ClearCountPositive(bits[..|bits| - 1]);
      assert forall i :: 0 <= i < |bits| - 1 ==> bits[..|bits| - 1][i] == bits[i];
    }
  }

  /** Number of used bits inside a run. */
  function UsedIn(bits: seq<bool>, start: nat, n: nat): (c: nat)
    requires start + n <= |bits|
    ensures c <= n
    decreases n
  {
    if n == 0 then 0 else UsedIn(bits, start, n - 1) + if bits[start + n - 1] then 1 else 0
  }

  lemma {:induction false} UsedInIsFull(bits: seq<bool>, start: nat, n: nat)
    requires start + n <= |bits|
    ensures UsedIn(bits, start, n) == n <==> UsedRun(bits, start, n)
    decreases n
  {
    if n > 0 {
      UsedInIsFull(bits, start, n - 1);
    }
  }

  lemma SetRunExtend(bits: seq<bool>, start: nat, n: nat, used: bool)
    requires start + n + 1 <= |bits|
    ensures SetRun(bits, start, n + 1, used) == SetRun(bits, start, n, used)[start + n := used]
  {
  }

  lemma EmptyRun(bits: seq<bool>, start: nat, used: bool)
    requires start <= |bits|
    ensures SetRun(bits, start, 0, used) == bits
  {
  }

  /** Freeing a run adds as many clear bits as it held used ones; taking it removes the clear ones. */
  lemma {:induction false} ClearCountSetRun(bits: seq<bool>, start: nat, n: nat, used: bool)
    requires start + n <= |bits|
    ensures ClearCount(SetRun(bits, start, n, used)) == ClearCount(bits) + UsedIn(bits, start, n) - (if used then n else 0)
    decreases n
  {
    hide SetRun, ClearCount;
    if n == 0 {
      EmptyRun(bits, start, used);
    } else {
      ClearCountSetRun(bits, start, n - 1, used);
      ClearCountOneMore(bits, start, n - 1, used);
    }
  }

  lemma ClearCountOneMore(bits: seq<bool>, start: nat, n: nat, used: bool)
    requires start + n + 1 <= |bits|
    ensures ClearCount(SetRun(bits, start, n + 1, used))
         == ClearCount(SetRun(bits, start, n, used)) + (if bits[start + n] then 1 else 0) - (if used then 1 else 0)
  {
    SetRunExtend(bits, start, n, used);
    ClearCountUpdate(SetRun(bits, start, n, used), start + n, used);
  }

  lemma {:induction false} UsedInClearRun(bits: seq<bool>, start: nat, n: nat)
    requires ClearRun(bits, start, n)
    ensures UsedIn(bits, start, n) == 0
    decreases n
  {
    if n > 0 {
      UsedInClearRun(bits, start, n - 1);
    }
  }
}
