/**
 * tmpfs_helper.c, tmpfs_create.c, tmpfs_mkdir.c, tmpfs_rmdir.c, tmpfs_unlink.c, tmpfs_lookup.c: the linked tree itself.
 */
module Tmpfs {
  import opened Base
  import opened TmpfsEntry
  import opened FsTree
  import opened FsEdits

  function NodeOf(e: Entry): Node
    reads e
  {
    Node(e.name, e.isDir, e.nlink, e.parent, e.child, e.next, e.Content())
  }

  /** The fields of the entries are what the value says. */
  ghost predicate Matches(nodes: map<Entry, Node>)
    reads nodes.Keys
  {
    forall e :: e in nodes ==> nodes[e] == NodeOf(e) && e.FileOk()
  }

  // ---- Single stores ----

  function ChildSet(n: Node, c: Entry?): Node { Node(n.name, n.isDir, n.nlink, n.parent, c, n.next, n.content) }
  function NextSet(n: Node, c: Entry?): Node { Node(n.name, n.isDir, n.nlink, n.parent, n.child, c, n.content) }
  function NlinkSet(n: Node, k: nat): Node { Node(n.name, n.isDir, k, n.parent, n.child, n.next, n.content) }

  method SetChild(ghost nodes: map<Entry, Node>, e: Entry, c: Entry?)
    requires Matches(nodes) && e in nodes
    modifies e`child
    ensures Matches(nodes[e := ChildSet(nodes[e], c)])
  {
    e.child := c;
  }

  method SetNext(ghost nodes: map<Entry, Node>, e: Entry, c: Entry?)
    requires Matches(nodes) && e in nodes
    modifies e`next
    ensures Matches(nodes[e := NextSet(nodes[e], c)])
  {
    e.next := c;
  }

  /** kvfs_stat_inc_nlink */
  method IncLink(ghost nodes: map<Entry, Node>, e: Entry)
    requires Matches(nodes) && e in nodes
    modifies e`nlink
    ensures Matches(nodes[e := NlinkSet(nodes[e], nodes[e].nlink + 1)])
  {
    e.nlink := e.nlink + 1;
  }

  /** kvfs_stat_dec_nlink */
  method DecLink(ghost nodes: map<Entry, Node>, e: Entry)
    requires Matches(nodes) && e in nodes
    modifies e`nlink
    ensures Matches(nodes[e := NlinkSet(nodes[e], if nodes[e].nlink > 0 then nodes[e].nlink - 1 else 0)])
  {
    if e.nlink > 0 {
      e.nlink := e.nlink - 1;
    }
  }

  function ContentSet(
    n: Node, content: Bytes): Node { Node(n.name, n.isDir, n.nlink, n.parent, n.child, n.next, content) }

  method WriteBytes(
    ghost nodes: map<Entry, Node>, e: Entry, offset: nat, data: Bytes, grow: Growth)
    returns (written: Result<nat>)
    requires Matches(nodes) && e in nodes && offset < TWO32 && |data| < TWO32 && e.Carried(offset, |data|, grow)
    modifies e`dataPtr, e`block, e`size, e`capacity, e`statSize
    ensures written == Halted <==> old(e.WriteFaults(offset, |data|, grow))
    ensures written == Returned(0) <==> old(e.WriteRefused(offset, |data|, grow))
    ensures written != Halted ==>
      written in {Returned(0), Returned(|data|)} && Matches(nodes[e := ContentSet(nodes[e], e.Content())])
    ensures written == Returned(0) ==> e.Content() == nodes[e].content
    ensures written != Halted && written != Returned(0) ==> WrittenBy(nodes[e].content, e.Content(), offset, data)
  {
    hide Overwrite, WrittenBy;
    assert e.Content() == nodes[e].content;
    var next;
    written, next := e.Write(offset, data, grow);
    if written != Halted {
      assert NodeOf(e) == ContentSet(nodes[e], e.Content());
      forall d <- nodes | d != e ensures nodes[d] == NodeOf(d) && d.FileOk() {
        assert old(NodeOf(d) == nodes[d] && d.FileOk());
      }
    }
  }

  lemma SameContent(nodes: map<Entry, Node>, e: Entry)
    requires e in nodes
    ensures nodes[e := ContentSet(nodes[e], nodes[e].content)] == nodes
  {
  }

  lemma OneMore(nodes: map<Entry, Node>, e: Entry)
    requires Matches(nodes) && e.FileOk()
    ensures Matches(nodes[e := NodeOf(e)])
  {
  }

  lemma OneLess(nodes: map<Entry, Node>, e: Entry)
    requires Matches(nodes)
    ensures Matches(nodes - {e})
  {
  }

  function JustRoot(e: Entry, location: string): Fs {
    Fs(map[e := Node(location, true, 2, null, null, null, [])], map[e := []], map[e := []], e)
  }

  lemma RootIsATree(e: Entry, location: string)
    ensures WellFormed(JustRoot(e, location)) && Unique(JustRoot(e, location))
    ensures Abstract(JustRoot(e, location)) == map[[] := Directory]
  {
    var f := JustRoot(e, location);
    assert ListAt(f, e) && PlacedAt(f, e) && LinksAt(f, e);
    hide ListAt, PlacedAt, LinksAt;
    AbstractIs(f, map[[] := Directory]);
  }

  lemma RootMatches(e: Entry, location: string)
    requires NodeOf(e) == Node(location, true, 2, null, null, null, []) && e.FileOk()
    ensures Matches(JustRoot(e, location).nodes)
  {
  }

  class Tree {
    const root: Entry
    ghost var fs: Fs               // what the linked entries stand for

    ghost predicate Valid()
      reads this, fs.nodes.Keys
    {
      WellFormed(fs) && Matches(fs.nodes) && fs.root == root
    }

    /** ktmpfs_mount */
    constructor Mount(location: string)
      ensures Valid() && Unique(fs) && Abstract(fs) == map[[] := Directory]
      ensures fresh(fs.nodes.Keys) && fs.nodes.Keys == {root}
    {
      hide WellFormed, Unique, Abstract, Matches;
      var e := new Entry(location, true, null, null);
      root := e;
      fs := JustRoot(e, location);
      new;
      RootIsATree(e, location);
      RootMatches(e, location);
    }

    /** The loop of ktmpfs_lookup, and its two special names. */
    method LookupEntry(e: Entry, name: string) returns (r: Entry?)
      requires Valid() && e in fs.nodes
      ensures r == match LookupIn(fs, e, name) case None => null case Some(c) => c
    {
      assert ListAt(fs, e);
      if !e.isDir {
        return null;
      }
      if name == "." {
        return e;
      } else if name == ".." {
        return if e.parent == null then e else e.parent;
      }
      r := e.child;
      ghost var i := 0;
      assert fs.kids[e][0..] == fs.kids[e];
      while r != null && r.name != name
        invariant 0 <= i <= |fs.kids[e]| && r == Head(fs.kids[e][i..])
        invariant NamedIn(fs, fs.kids[e], name) == NamedIn(fs, fs.kids[e][i..], name)
        decreases |fs.kids[e]| - i
      {
        assert fs.kids[e][i..][1..] == fs.kids[e][i + 1..];
        r := r.next;
        i := i + 1;
      }
    }

    /** ktmpfs_create_entry: the new entry becomes its parent's first child; the caller counts the link. */
    method CreateEntry(parent: Entry, name: string, isDir: bool) returns (entry: Entry, ghost nodes: map<Entry, Node>)
      requires Matches(fs.nodes) && parent in fs.nodes
      modifies parent`child
      ensures fresh(entry) && Matches(nodes)
      ensures nodes == fs.nodes[parent := ChildSet(fs.nodes[parent], entry)]
                               [entry := Node(name, isDir, if isDir then 2 else 1, parent, null, fs.nodes[parent].child, [])]
    {
      entry := new Entry(name, isDir, parent, parent.child);
      SetChild(fs.nodes, parent, entry);
      OneMore(fs.nodes[parent := ChildSet(fs.nodes[parent], entry)], entry);
      nodes := fs.nodes[parent := ChildSet(fs.nodes[parent], entry)][entry := NodeOf(entry)];
    }

    /** ktmpfs_create and ktmpfs_mkdir: the new entry, or null when the parent is not a directory. */
    method Create(parent: Entry, name: string, isDir: bool) returns (entry: Entry?)
      requires Valid() && parent in fs.nodes
      modifies this, parent`child, parent`nlink
      ensures Valid() && (entry == null <==> !old(fs).nodes[parent].isDir)
      ensures entry == null ==> fs == old(fs)
      ensures entry != null ==> fs.nodes.Keys == old(fs).nodes.Keys + {entry}
      ensures entry != null ==>
        fresh(entry) && Addable(old(fs), parent, entry) && fs == WithChild(old(fs), parent, entry, name, isDir)
    {
      hide ListAt, PlacedAt, LinksAt, Matches, NodeOf, WithChild;
      IsDirOf(fs.nodes, parent);
      if !parent.isDir {
        return null;
      }
      ghost var nodes;
      entry, nodes := CreateEntry(parent, name, isDir);
      IncLink(nodes, parent);
      AddedKeepsTree(fs, parent, entry, name, isDir);
      CountedLink(fs, parent, entry, name, isDir, nodes);
      fs := WithChild(fs, parent, entry, name, isDir);
    }

    /** The walk of ktmpfs_remove_from_parent_ll: the entry and the one before it on the list. */
    method FindBefore(parent: Entry, entry: Entry) returns (prev: Entry?, tmp: Entry?)
      requires Valid() && parent in fs.nodes
      ensures tmp == if entry in fs.kids[parent] then entry else null
      ensures tmp != null ==> (
                var i := IndexOf(fs.kids[parent], entry); prev == if i == 0 then null else fs.kids[parent][i - 1])
    {
      hide ListAt, PlacedAt, LinksAt, Matches, NodeOf;
      ghost var s, i := fs.kids[parent], 0;
      prev, tmp := null, parent.child;
      ListLinks(fs, parent);
      while tmp != entry && tmp != null
        invariant 0 <= i <= |s| && tmp == Head(s[i..]) && entry !in s[..i]
        invariant prev == if i == 0 then null else s[i - 1]
        decreases |s| - i
      {
        prev := tmp;
        tmp := tmp.next;
        i := i + 1;
      }
      if tmp != null { IndexIs(s, entry, i); }
    }

    /** ktmpfs_remove_from_parent_ll, for an entry without children, which is what its callers ask for. */
    method RemoveFromParentLl(parent: Entry?, entry: Entry?) returns (ok: bool)
      requires Valid() && (parent != null ==> parent in fs.nodes)
      requires entry != null ==> entry in fs.nodes && fs.kids[entry] == []
      modifies this, fs.nodes.Keys
      ensures Valid() && (ok <==> parent != null && entry != null && entry in old(fs).kids[parent])
      ensures !ok ==> fs == old(fs)
      ensures ok ==> (
                var i := IndexOf(old(fs).kids[parent], entry);
                Removable(old(fs), parent, i) && fs == Without(old(fs), parent, i))
    {
      hide ListAt, PlacedAt, LinksAt, Matches, NodeOf, Removable, Without;
      if parent == null || entry == null {
        return false;
      }
      var prev, tmp := FindBefore(parent, entry);
      if tmp == null {
        return false;
      }
      ghost var i := IndexOf(fs.kids[parent], entry);
      ChildIsRemovable(fs, parent, i);
      RemovedKeepsTree(fs, parent, i);
      WithoutRoot(fs, parent, i);
      Detach(parent, prev, tmp, i);
      return true;
    }

    /** ktmpfs_rmdir on a directory: neither the root nor one that still has children. */
    method Rmdir(e: Entry) returns (ok: bool)
      requires Valid() && e in fs.nodes && fs.nodes[e].isDir
      modifies this, fs.nodes.Keys
      ensures Valid() && (ok <==> CanGo(old(fs), e))
      ensures fs == if ok then Removed(old(fs), e) else old(fs)
    {
      hide ListAt, PlacedAt, LinksAt, Matches, NodeOf, Removable, Without;
      LinksOf(fs, e);
      if e.parent == null || e.child != null {
        return false;
      }
      LeafIsRemovable(fs, e);
      ok := RemoveFromParentLl(e.parent, e);
    }

    /** ktmpfs_unlink on a regular file */
    method Unlink(e: Entry) returns (ok: bool)
      requires Valid() && e in fs.nodes && !fs.nodes[e].isDir
      modifies this, fs.nodes.Keys
      ensures Valid() && (ok <==> CanGo(old(fs), e)) && ok
      ensures fs == Removed(old(fs), e)
    {
      hide ListAt, PlacedAt, LinksAt, Matches, NodeOf, Removable, Without;
      LinksOf(fs, e);
      if e.parent == null {
        return false;
      }
      LeafIsRemovable(fs, e);
      ok := RemoveFromParentLl(e.parent, e);
    }

    /** ktmpfs_write on a regular file; `grow` is what krealloc answers, see Entry.Write. */
    method WriteFile(
      e: Entry, offset: nat, data: Bytes, grow: Growth) returns (written: Result<nat>)
      requires Valid() && e in fs.nodes && !fs.nodes[e].isDir && offset < TWO32 && |data| < TWO32
      requires e.Carried(offset, |data|, grow)
      modifies this, e`dataPtr, e`block, e`size, e`capacity, e`statSize
      ensures written == Halted <==> old(e.WriteFaults(offset, |data|, grow))
      ensures written == Returned(0) <==> old(e.WriteRefused(offset, |data|, grow))
      ensures written != Halted ==> Valid() && written in {Returned(0), Returned(|data|)}
      ensures written == Returned(0) ==> fs == old(fs)
      ensures written != Halted && written != Returned(0) ==>
        fs == WithContent(old(fs), e, e.Content()) && WrittenBy(old(fs).nodes[e].content, e.Content(), offset, data)
    {
      hide ListAt, PlacedAt, LinksAt, Overwrite, Matches, WrittenBy;
      written := WriteBytes(fs.nodes, e, offset, data, grow);
      if written != Halted {
        if written == Returned(0) {
          SameContent(fs.nodes, e);
        } else {
          RewrittenKeepsTree(fs, e, e.Content());
          fs := WithContent(fs, e, e.Content());
        }
      }
    }

    /** The link over the entry, its release, and the lost link of the parent. */
    method Detach(parent: Entry, prev: Entry?, entry: Entry, ghost i: nat)
      requires Shaped(fs) && Matches(fs.nodes) && parent in fs.nodes && i < |fs.kids[parent]|
      requires entry == fs.kids[parent][i] && entry in fs.nodes
      requires prev == (if i == 0 then null else fs.kids[parent][i - 1]) && (prev != null ==> prev in fs.nodes)
      requires parent != prev && parent != entry && entry != prev
      modifies this, parent`child, parent`nlink, AtMost(prev)`next
      ensures fs == Without(old(fs), parent, i) && Matches(fs.nodes)
    {
      hide Matches, NodeOf, Without;
      ghost var nodes := fs.nodes;
      NextOf(nodes, entry);
      if prev == null {
        SetChild(nodes, parent, entry.next);
        nodes := nodes[parent := ChildSet(nodes[parent], nodes[entry].next)];
      } else {
        SetNext(nodes, prev, entry.next);
        nodes := nodes[prev := NextSet(nodes[prev], nodes[entry].next)];
      }
      DecLink(nodes, parent);
      Unlinked(fs, parent, i, nodes);
      nodes := nodes[parent := NlinkSet(nodes[parent], if nodes[parent].nlink > 0 then nodes[parent].nlink - 1 else 0)];
      OneLess(nodes, entry);
      fs := Without(fs, parent, i);
    }
  }

  lemma IsDirOf(nodes: map<Entry, Node>, e: Entry)
    requires Matches(nodes) && e in nodes
    ensures nodes[e].isDir == e.isDir
  {
  }

  lemma CountedLink(f: Fs, p: Entry, e: Entry, name: string, isDir: bool, nodes: map<Entry, Node>)
    requires p in f.nodes && p in f.kids && p in f.path && e !in f.nodes
    requires nodes == f.nodes[p := ChildSet(f.nodes[p], e)][e := Node(name, isDir, if isDir then 2 else 1, p, null, f.nodes[p].child, [])]
    ensures p in nodes && nodes[p := NlinkSet(nodes[p], nodes[p].nlink + 1)] == WithChild(f, p, e, name, isDir).nodes
    ensures WithChild(f, p, e, name, isDir).root == f.root
    ensures WithChild(f, p, e, name, isDir).nodes.Keys == f.nodes.Keys + {e}
  {
  }

  lemma LinksOf(f: Fs, e: Entry)
    requires WellFormed(f) && Matches(f.nodes) && e in f.nodes
    ensures e.parent == f.nodes[e].parent && e.child == Head(f.kids[e])
    ensures e.parent == null <==> e == f.root
    ensures e.parent != null ==> e.parent in f.nodes && e in f.kids[e.parent]
    ensures !f.nodes[e].isDir ==> f.kids[e] == [] && e != f.root
  {
    assert ListAt(f, e) && PlacedAt(f, e);
  }

  /** The links in the heap are those of the list. */
  lemma ListLinks(f: Fs, e: Entry)
    requires WellFormed(f) && Matches(f.nodes) && e in f.nodes
    ensures e.child == Head(f.kids[e])
    ensures forall i :: 0 <= i < |f.kids[e]| ==> f.kids[e][i].next == Head(f.kids[e][i + 1..])
  {
    assert ListAt(f, e);
  }

  function AtMost(e: Entry?): set<Entry> {
    if e == null then {} else {e}
  }

  lemma WithoutRoot(f: Fs, p: Entry, i: nat)
    requires p in f.nodes && p in f.kids && i < |f.kids[p]| && f.kids[p][i] in f.nodes
    ensures Without(f, p, i).root == f.root
  {
  }

  lemma NextOf(nodes: map<Entry, Node>, e: Entry)
    requires Matches(nodes) && e in nodes
    ensures nodes[e].next == e.next
  {
  }

  lemma {:induction false} IndexIs(s: seq<Entry>, e: Entry, i: nat)
    requires i < |s| && s[i] == e && e !in s[..i]
    ensures IndexOf(s, e) == i
  {
    if i > 0 {
      assert s[0] in s[..i];
      assert forall c <- s[1..][..i - 1] :: c in s[..i];
      IndexIs(s[1..], e, i - 1);
    }
  }

  lemma ChildIsRemovable(f: Fs, p: Entry, i: nat)
    requires WellFormed(f) && p in f.nodes && i < |f.kids[p]| && f.kids[p][i] in f.nodes && f.kids[f.kids[p][i]] == []
    ensures Removable(f, p, i)
    ensures (i > 0 ==> f.kids[p][i - 1] in f.nodes && f.kids[p][i - 1] != p && f.kids[p][i - 1] != f.kids[p][i])
    ensures p != f.kids[p][i]
  {
    assert ListAt(f, p);
    if i > 0 {
      var c := f.kids[p][i - 1];
      assert PlacedAt(f, c) && PlacedAt(f, p);
    }
  }

  lemma Unlinked(f: Fs, p: Entry, i: nat, nodes: map<Entry, Node>)
    requires Shaped(f) && p in f.nodes && i < |f.kids[p]| && f.kids[p][i] in f.nodes && f.kids[p][i] != p
    requires i > 0 ==> f.kids[p][i - 1] in f.nodes && f.kids[p][i - 1] != p && f.kids[p][i - 1] != f.kids[p][i]
    requires var after := f.nodes[f.kids[p][i]].next;
      nodes == if i == 0 then f.nodes[p := ChildSet(f.nodes[p], after)]
               else f.nodes[f.kids[p][i - 1] := NextSet(f.nodes[f.kids[p][i - 1]], after)]
    ensures p in nodes
    ensures nodes[p := NlinkSet(nodes[p], if nodes[p].nlink > 0 then nodes[p].nlink - 1 else 0)] - {f.kids[p][i]} == Without(f, p, i).nodes
    ensures Without(f, p, i).root == f.root
  {
  }
}
