/** The address space the kernel boots with: which frames it can reach at PHYS_TO_VIRT. */
module BootSpace {
  import opened Base
  import opened Paging
  import opened Vmm

  /** After kvmm_init and kvmm_disable_identity_mapping: one 4 MiB table at slot 768, and the recursive slot. */
  ghost predicate Booted(m: Memory, pd: FrameNo, table: FrameNo) {
    && pd < ENTRIES && table < ENTRIES && pd != table
    && m[pd][KERNEL_SLOT].present && m[pd][KERNEL_SLOT].frame == table
    && m[pd][RECURSIVE].present && m[pd][RECURSIVE].frame == pd
    && (forall k: Index :: k != KERNEL_SLOT && k != RECURSIVE ==> !m[pd][k].present)
    && (forall i: Index :: m[table][i].present && m[table][i].frame == i)
  }

  /** The directory is well formed, and a frame is reachable exactly when it lies in the first 4 MiB. */
  lemma ReachableAtBoot(m: Memory, pd: FrameNo, table: FrameNo, f: FrameNo)
    requires Booted(m, pd, table)
    ensures Wf(m, pd)
    ensures DirectMapped(m, pd, f) <==> f < ENTRIES
  {
    if f < ENTRIES {
      assert PhysToVirt(f) == Page(KERNEL_SLOT, f);
    } else {
      assert PhysToVirt(f).slot != KERNEL_SLOT;
    }
  }
}
