/** fd_helper.c, fd_open.c, fd_close.c: the descriptor table of a process. */
module Descriptors {
  import opened Base
  import opened FsTree
  import opened Paths
  import opened Vfs
  import Tmpfs

  const MAX_COUNT := 32
  const FD_ERROR := -1

  /** file_desc_t */
  class FileDesc {
    const node: VfsNode
    const flags: nat
    var offset: nat
    var refcount: nat

    constructor (node: VfsNode, flags: nat)
      ensures this.node == node && this.flags == flags && offset == 0 && refcount == 1
    {
      this.node, this.flags, offset, refcount := node, flags, 0, 1;
    }
  }

  /** The least index of a free slot. */
  function LowestFree(used: seq<bool>): (r: Option<nat>)
    ensures r.Some? ==> r.value < |used| && !used[r.value] && forall i :: 0 <= i < r.value ==> used[i]
    ensures r == None ==> forall i :: 0 <= i < |used| ==> used[i]
  {
    if used == [] then None
    else if !used[0] then Some(0)
    else match LowestFree(used[1..]) case None => None case Some(i) => Some(i + 1)
  }

  /** A closed descriptor is the next one handed out, unless a lower one was free already. */
  lemma ClosedIsNext(used: seq<bool>, fd: nat)
    requires fd < |used| && used[fd]
    ensures LowestFree(used[fd := false])
         == match LowestFree(used) case Some(i) => (if i < fd then Some(i) else Some(fd)) case None => Some(fd)
  {
    var now := used[fd := false];
    var r := LowestFree(now);
    assert !now[fd];
    assert forall i :: 0 <= i < |used| && i != fd ==> now[i] == used[i];
  }

  class Table {
    const slots: array<FileDesc?>
    const vfs: Vfs

    ghost predicate Valid()
      reads this, slots, slots[..], vfs`live
    {
      && slots.Length == MAX_COUNT
      && (forall i :: 0 <= i < MAX_COUNT && slots[i] != null ==>
            slots[i].refcount > 0 && slots[i].node in vfs.live && slots[i].node != vfs.root)
      && forall i, j :: 0 <= i < j < MAX_COUNT && slots[i] != null && slots[j] != null ==>
           slots[i] != slots[j] && slots[i].node != slots[j].node
    }

    ghost function Used(): (used: seq<bool>)
      reads slots
      ensures |used| == slots.Length && forall i :: 0 <= i < slots.Length ==> used[i] == (slots[i] != null)
    {
      seq(slots.Length, i requires 0 <= i < slots.Length reads slots => slots[i] != null)
    }

    constructor (vfs: Vfs)
      ensures Valid() && this.vfs == vfs && forall i :: 0 <= i < MAX_COUNT ==> slots[i] == null
      ensures fresh(slots)
    {
      this.vfs := vfs;
      slots := new FileDesc?[MAX_COUNT](_ => null);
    }

    /** kfd_create_for_process: the lowest free slot, as POSIX.1 asks of open(). */
    method Create(node: VfsNode?, flags: nat) returns (fd: int)
      requires Valid() && (node != null ==> node in vfs.live && node != vfs.root)
      requires forall i :: 0 <= i < MAX_COUNT && slots[i] != null ==> slots[i].node != node
      modifies slots
      ensures Valid()
      ensures node == null || LowestFree(old(Used())) == None ==> fd == FD_ERROR && slots[..] == old(slots[..])
      ensures node != null && LowestFree(old(Used())).Some? ==> (
                fd == LowestFree(old(Used())).value && slots[fd] != null && fresh(slots[fd]) && slots[..] == old(slots[..])[fd := slots[fd]]
                && slots[fd].node == node && slots[fd].flags == flags && slots[fd].offset == 0 && slots[fd].refcount == 1)
    {
      if node == null {
        return FD_ERROR;
      }
      fd := 0;
      while fd < MAX_COUNT && slots[fd] != null
        invariant 0 <= fd <= MAX_COUNT && forall i :: 0 <= i < fd ==> slots[i] != null
      {
        fd := fd + 1;
      }
      if fd >= MAX_COUNT {
        return FD_ERROR;
      }
      var desc := new FileDesc(node, flags);
      slots[fd] := desc;
    }

    /** kfd_get_from_process */
    method Get(fd: int) returns (desc: FileDesc?)
      requires Valid()
      ensures desc == if 0 <= fd < MAX_COUNT then slots[fd] else null
    {
      if fd < 0 || fd >= MAX_COUNT {
        return null;
      }
      desc := slots[fd];
    }

    /** kfd_check_access_from_process */
    method CheckAccess(fd: int, read: bool, write: bool) returns (ok: bool)
      requires Valid()
      ensures ok <==> (
                0 <= fd < MAX_COUNT && slots[fd] != null
                && (read ==> slots[fd].flags % 4 != WRONLY) && (write ==> slots[fd].flags % 4 in {WRONLY, RDWR}))
    {
      if fd < 0 || fd >= MAX_COUNT || slots[fd] == null {
        return false;
      }
      var accmode := slots[fd].flags % 4;
      var mayRead, mayWrite := false, false;
      if accmode == WRONLY {
        mayWrite := true;
      } else if accmode == RDWR {
        mayRead, mayWrite := true, true;
      } else {
        mayRead := true;
      }
      ok := (read ==> mayRead) && (write ==> mayWrite);
    }

    /** The end of kfd_close_for_process: the node is released, the slot is free. */
    method ReleaseSlot(fd: nat, desc: FileDesc)
      requires Valid() && vfs.NodesOk() && fd < MAX_COUNT && slots[fd] == desc && desc.node.refcount == 1
      modifies slots, vfs`live, desc.node`refcount
      ensures Valid() && vfs.NodesOk()
      ensures slots[..] == old(slots[..])[fd := null] && vfs.live == old(vfs.live) - {desc.node}
    {
      vfs.Close(desc.node);
      slots[fd] := null;
    }

    /** The node of a descriptor, when there is one. */
    ghost function NodeOf(fd: int): set<VfsNode>
      requires slots.Length == MAX_COUNT
      reads slots
    {
      if 0 <= fd < MAX_COUNT && slots[fd] != null then {slots[fd].node} else {}
    }

    ghost function DescOf(fd: int): set<FileDesc>
      requires slots.Length == MAX_COUNT
      reads slots
    {
      if 0 <= fd < MAX_COUNT && slots[fd] != null then {slots[fd]} else {}
    }

    /** kfd_close_for_process: the last reference releases the node and the slot. */
    method Close(fd: int) returns (ok: bool)
      requires Valid() && vfs.NodesOk() && forall n <- NodeOf(fd) :: n.refcount == 1
      modifies slots, vfs`live, DescOf(fd)`refcount, NodeOf(fd)`refcount
      ensures Valid() && vfs.NodesOk()
      ensures ok <==> 0 <= fd < MAX_COUNT && old(slots[fd]) != null
      ensures !ok ==> slots[..] == old(slots[..]) && vfs.live == old(vfs.live)
      ensures ok && old(slots[fd].refcount) > 1 ==> (
                slots[..] == old(slots[..]) && vfs.live == old(vfs.live) && slots[fd].refcount == old(slots[fd].refcount) - 1)
      ensures ok && old(slots[fd].refcount) == 1 ==> (
                slots[..] == old(slots[..])[fd := null] && vfs.live == old(vfs.live) - {old(slots[fd].node)})
    {
      var desc := Get(fd);
      if desc == null {
        return false;
      }
      if desc.refcount > 1 {
        desc.refcount := desc.refcount - 1;
        return true;
      }
      ReleaseSlot(fd, desc);
      ok := true;
    }

    /** The call of kvfs_open. */
    method OpenNode(path: string, flags: nat) returns (node: VfsNode?)
      requires vfs.Valid() && vfs.cwd in vfs.live && '\0' !in path
      modifies vfs`live, vfs.cwd`refcount, vfs.tree, vfs.tree.fs.nodes.Keys
      ensures vfs.Valid() && old(vfs.live) - {vfs.cwd} <= vfs.live
      ensures vfs.Files() == old(vfs.AfterOpen(path, Bit(flags, CREAT), Bit(flags, DIRECTORY)))
      ensures node != null <==> old(vfs.Opens(path, Bit(flags, CREAT), Bit(flags, EXCL)))
      ensures node != null ==>
        fresh(node) && node != vfs.root && vfs.live == old(vfs.live) + {node} && Left(old(vfs.live), vfs.live, 1)
      ensures node == null ==> Failed(old(vfs.ReleasesCwd(path)), old(vfs.live), old(vfs.cwd.refcount))
    {
      hide WellFormed, Unique, Tmpfs.Matches, Abstract, CanOpen, OpenedFiles, TargetPath, Split, Bit, Left;
      node := vfs.Open(path, Bit(flags, CREAT), Bit(flags, EXCL), Bit(flags, DIRECTORY));
      LeftBehind(old(vfs.live), node, vfs.root);
    }

    /**
     * What a failing open leaves: the nodes as they were, but for the working directory's when the path was one name.
     */
    ghost predicate Failed(releases: bool, before: set<VfsNode>, count: nat)
      reads this, vfs
    {
      && (releases ==> vfs.live == if count == 1 then before - {vfs.cwd} else before)
      && (!releases ==> vfs.live == before)
    }

    /**
     * kfd_open_for_process, with the flags kvfs_open looks at. When the table is full the node just opened stays
     * behind.
     */
    method Open(path: string, flags: nat) returns (fd: int)
      requires Valid() && vfs.Valid() && vfs.cwd in vfs.live && '\0' !in path
      requires forall i :: 0 <= i < MAX_COUNT && slots[i] != null ==> slots[i].node != vfs.cwd
      modifies slots, vfs`live, vfs.cwd`refcount, vfs.tree, vfs.tree.fs.nodes.Keys
      ensures Valid() && vfs.Valid()
      ensures vfs.Files() == old(vfs.AfterOpen(path, Bit(flags, CREAT), Bit(flags, DIRECTORY)))
      ensures fd == FD_ERROR <==> LowestFree(old(Used())) == None || !old(vfs.Opens(path, Bit(flags, CREAT), Bit(flags, EXCL)))
      ensures fd == FD_ERROR ==> slots[..] == old(slots[..])
      ensures fd == FD_ERROR ==>
        if old(vfs.Opens(path, Bit(flags, CREAT), Bit(flags, EXCL))) then Left(old(vfs.live), vfs.live, 1)
        else Failed(old(vfs.ReleasesCwd(path)), old(vfs.live), old(vfs.cwd.refcount))
      ensures fd != FD_ERROR ==> (
                && 0 <= fd < MAX_COUNT && slots[fd] != null && LowestFree(old(Used())) == Some(fd)
                && slots[..] == old(slots[..])[fd := slots[fd]] && fresh(slots[fd]) && fresh(slots[fd].node)
                && vfs.live == old(vfs.live) + {slots[fd].node} && slots[fd].offset == 0 && slots[fd].flags == flags)
    {
      hide WellFormed, Unique, Tmpfs.Matches, Abstract, CanOpen, OpenedFiles, TargetPath, Split, LowestFree, Bit, Left;
      var node := OpenNode(path, flags);
      if node == null {
        return FD_ERROR;
      }
      fd := Create(node, flags);
    }
  }

  // The access modes of POSIX.1 open(); O_RDONLY is 0.
  const WRONLY := 1
  const RDWR := 2

  const CREAT := 0x40
  const EXCL := 0x80
  const DIRECTORY := 0x10000

  predicate Bit(flags: nat, bit: nat)
    requires bit > 0
  {
    flags / bit % 2 == 1
  }
}
