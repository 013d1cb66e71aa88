/** tmpfs_entry_t, and the bytes of a regular file: tmpfs_write.c, tmpfs_read.c, krealloc.c. */
module TmpfsEntry {
  import opened Base

  /**
   * What krealloc answers to the growth of a file: a fault or panic, NULL, or a block at `ptr` that holds these bytes.
   */
  datatype Growth = Faulted | Refused | Moved(ptr: nat, bytes: Bytes)

  /** The promise of krealloc: the first `n` bytes are those of the old block, as far as both blocks go. */
  predicate Carries(from: Bytes, to: Bytes, n: nat) {
    forall i :: 0 <= i < |from| && i < |to| && i < n ==> to[i] == from[i]
  }

  /** A directory or a regular file. `block` is the heap payload that _data_ptr points to, empty for NULL. */
  class Entry {
    const name: string
    const isDir: bool
    var nlink: nat
    var parent: Entry?
    var child: Entry?
    var next: Entry?
    var dataPtr: nat
    var block: Bytes
    var size: nat
    var capacity: nat
    var statSize: nat

    /** kcalloc, kstrcpy and kvfs_stat_create: 2 links for a directory, 1 for a file. */
    constructor (name: string, isDir: bool, parent: Entry?, next: Entry?)
      ensures this.name == name && this.isDir == isDir && this.parent == parent && this.next == next && child == null
      ensures nlink == (if isDir then 2 else 1) && FileOk() && Content() == [] && dataPtr == 0
    {
      this.name, this.isDir, this.parent, this.next, child := name, isDir, parent, next, null;
      nlink := if isDir then 2 else 1;
      dataPtr, block, size, capacity, statSize := 0, [], 0, 0, 0;
    }

    ghost predicate FileOk()
      reads this`dataPtr, this`block, this`size, this`capacity, this`statSize
    {
      statSize == size <= capacity <= |block| < TWO32 && (dataPtr == 0 <==> block == [])
    }

    /** A write of `n` bytes at `offset` asks krealloc for more room. */
    predicate Grows(offset: nat, n: nat)
      reads this`capacity
    {
      n != 0 && Wrap32(offset + n) > capacity
    }

    /** The write ends in a fault: the growth does, or the bytes do not fit the block there is afterwards. */
    predicate WriteFaults(offset: nat, n: nat, grow: Growth)
      reads this`block, this`capacity
    {
      if Grows(offset, n) then grow.Faulted? || (grow.Moved? && |grow.bytes| < offset + n)
      else n != 0 && offset + n > |block|
    }

    /** ktmpfs_write answers 0. */
    predicate WriteRefused(offset: nat, n: nat, grow: Growth)
      reads this`capacity
    {
      n == 0 || (Grows(offset, n) && grow.Refused?)
    }

    /** The file as a sequence of bytes. */
    function Content(): (b: Bytes)
      reads this`block, this`size
    {
      if size <= |block| then block[..size] else block
    }

    /** The growth of ktmpfs_write: whatever krealloc copied from behind the old block, the content stays. */
    method Grow(newSize: nat, ptr: nat, bytes: Bytes)
      requires FileOk() && capacity < newSize <= |bytes| < TWO32 && ptr != 0 && Carries(block, bytes, newSize)
      modifies this`dataPtr, this`block, this`capacity
      ensures FileOk() && dataPtr == ptr && capacity == newSize && block == bytes && Content() == old(Content())
    {
      dataPtr, block, capacity := ptr, bytes, newSize;
    }

    /** What ktmpfs_write relies on: krealloc has carried the bytes over. */
    predicate Carried(offset: nat, n: nat, grow: Growth)
      reads this`block
    {
      grow.Moved? ==> grow.ptr != 0 && |grow.bytes| < TWO32 && Carries(block, grow.bytes, Wrap32(offset + n))
    }

    /** ktmpfs_write on a regular file. */
    method Write(offset: nat, data: Bytes, grow: Growth) returns (written: Result<nat>, next: nat)
      requires FileOk() && offset < TWO32 && |data| < TWO32 && Carried(offset, |data|, grow)
      modifies this`dataPtr, this`block, this`size, this`capacity, this`statSize
      ensures written == Halted <==> old(WriteFaults(offset, |data|, grow))
      ensures written == Returned(0) <==> old(WriteRefused(offset, |data|, grow))
      ensures written != Halted ==>
        FileOk() && written in {Returned(0), Returned(|data|)} && next == offset + written.value
      ensures written == Returned(0) ==> Content() == old(Content()) && unchanged(this)
      ensures written != Halted && written != Returned(0) ==> WrittenBy(old(Content()), Content(), offset, data)
      ensures written != Halted && written != Returned(0) ==>
        var before := if old(Grows(offset, |data|)) then grow.bytes else old(block);
        && dataPtr == (if old(Grows(offset, |data|)) then grow.ptr else old(dataPtr))
        && offset + |data| <= |before| && block == Overwrite(before, offset, data)
    {
      next := offset;
      if data == [] {
        return Returned(0), next;
      }
      var newSize := Wrap32(offset + |data|);
      if newSize > capacity {
        match grow {
          case Faulted => return Halted, next;
          case Refused => return Returned(0), next;
          case Moved(ptr, bytes) =>
            if |bytes| < newSize { return Halted, next; }
            Grow(newSize, ptr, bytes);
        }
      }
      if offset + |data| > |block| {
        return Halted, next;
      }
      Put(offset, data);
      next := offset + |data|;
      written := Returned(|data|);
    }

    /** kmemcpy into the block, then the new size. */
    method Put(offset: nat, data: Bytes)
      requires FileOk() && data != [] && offset + |data| <= capacity
      modifies this`block, this`size, this`statSize
      ensures FileOk() && block == Overwrite(old(block), offset, data)
      ensures WrittenBy(old(Content()), Content(), offset, data)
    {
      hide WrittenBy;
      Spliced(block, size, offset, data);
      Store(offset, data);
      size := Max(offset + |data|, size);
      statSize := size;
    }

    /** kmemcpy into the block */
    method Store(offset: nat, data: Bytes)
      requires offset + |data| <= |block|
      modifies this`block
      ensures |block| == |old(block)| && block == old(block)[..offset] + data + old(block)[offset + |data|..]
    {
      block := block[..offset] + data + block[offset + |data|..];
    }

    /** ktmpfs_read on a regular file: as many bytes as are asked for and left. */
    method Read(offset: nat, len: nat) returns (data: Bytes, next: nat)
      requires FileOk()
      ensures data == Slice(Content(), offset, len) && next == offset + |data|
      ensures |data| == if offset >= |Content()| then 0 else Min(len, |Content()| - offset)
      ensures forall i :: 0 <= i < |data| ==> data[i] == Content()[offset + i]
      ensures data == [] <==> len == 0 || offset >= |Content()|
    {
      data, next := [], offset;
      if len == 0 || offset > size {
        return;
      }
      var n := if size - offset > len then len else size - offset;
      data := block[offset..offset + n];
      next := offset + n;
    }
  }

  function Max(a: nat, b: nat): nat { if a > b then a else b }

  function Min(a: nat, b: nat): nat { if a < b then a else b }

  /**
   * The file after `data` went to `offset`: those bytes are spliced in. Behind the old end they leave a gap, whose bytes are
   * whatever the block held.
   */
  ghost predicate WrittenBy(before: Bytes, after: Bytes, offset: nat, data: Bytes) {
    && |after| == Max(|before|, offset + |data|)
    && after[offset..offset + |data|] == data
    && (if offset <= |before| then after == Overwrite(before, offset, data) else after[..|before|] == before)
  }

  lemma Spliced(block: Bytes, size: nat, offset: nat, data: Bytes)
    requires size <= |block| && offset + |data| <= |block|
    ensures WrittenBy(block[..size], (block[..offset] + data + block[offset + |data|..])[..Max(size, offset + |data|)], offset, data)
  {
    var a, c, n := block[..offset], block[offset + |data|..], Max(size, offset + |data|);
    var tail := c[..n - offset - |data|];
    var after := a + data + tail;
    assert (a + data + c)[..n] == after;
    assert after[offset..offset + |data|] == data;
    if offset <= size {
      assert block[..size][..offset] == a;
      assert offset + |data| <= size ==> block[..size][offset + |data|..] == tail;
      assert offset + |data| > size ==> tail == [];
    } else {
      assert after[..size] == a[..size] == block[..size];
    }
  }

  /** `data` replaces the bytes from `offset` on, and extends the file where it reaches past its end. */
  function Overwrite(b: Bytes, offset: nat, data: Bytes): (r: Bytes)
    requires offset <= |b|
    ensures |r| == Max(|b|, offset + |data|)
    ensures forall i :: 0 <= i < |r| ==> r[i] == if offset <= i < offset + |data| then data[i - offset] else b[i]
  {
    b[..offset] + data + if offset + |data| <= |b| then b[offset + |data|..] else []
  }

  /** Up to `len` bytes from `offset` on. */
  function Slice(b: Bytes, offset: nat, len: nat): (r: Bytes)
    ensures |r| == if offset >= |b| then 0 else Min(len, |b| - offset)
    ensures forall i :: 0 <= i < |r| ==> r[i] == b[offset + i]
  {
    if offset >= |b| then [] else if |b| - offset > len then b[offset..offset + len] else b[offset..]
  }
}
