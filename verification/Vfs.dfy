/** vfs_helper.c, vfs_open.c, vfs_close.c, vfs_rmdir.c, vfs_unlink.c: nodes, and path operations on the mounted tree. */
module Vfs {
  import opened Base
  import opened TmpfsEntry
  import opened FsTree
  import opened FsEdits
  import opened Tmpfs
  import opened Paths

  /** vfs_node_t: a counted reference to an entry. */
  class VfsNode {
    const entry: Entry
    var refcount: nat

    /** ktmpfs_create_vfs_node */
    constructor (entry: Entry)
      ensures this.entry == entry && refcount == 1
    {
      this.entry, refcount := entry, 1;
    }
  }

  /** The tokens of a path but the last: where its parent is. */
  function ParentNames(ts: seq<string>): seq<string> {
    if Names(ts) == [] then [] else Names(ts)[..|Names(ts)| - 1]
  }

  class Vfs {
    const tree: Tree
    const root: VfsNode            // kvfs_root_mount_dir
    var cwd: VfsNode               // kvfs_cwd
    ghost var live: set<VfsNode>   // allocated and not yet freed

    /** Every live node is counted and refers to an entry that exists. */
    ghost predicate NodesOk()
      reads this, tree, live
    {
      root in live && root.entry == tree.root && forall n <- live :: n.refcount > 0 && n.entry in tree.fs.nodes
    }

    ghost predicate Valid()
      reads this, tree, tree.fs.nodes.Keys, live
    {
      tree.Valid() && Unique(tree.fs) && NodesOk()
    }

    ghost function Files(): map<Path, Kind>
      requires Valid()
      reads this, tree, tree.fs.nodes.Keys, live
    {
      Abstract(tree.fs)
    }

    /** kvfs_mount of the tmpfs at "/", and the initial working directory. */
    constructor Mount()
      ensures Valid() && cwd == root && live == {root} && Files() == map[[] := Directory]
      ensures fresh(live) && fresh(tree) && fresh(tree.fs.nodes.Keys)
    {
      hide WellFormed, Unique, Abstract, Matches;
      var t := new Tree.Mount("/");
      var n := new VfsNode(t.root);
      tree, root, cwd, live := t, n, n, {n};
    }

    /** kvfs_close */
    method Close(node: VfsNode?)
      requires root in live && (node != null ==> node in live && node.refcount > 0)
      modifies (AtMostNode(node) - {root})`refcount, this`live
      ensures old(NodesOk()) ==> NodesOk()
      ensures node == null || node == root ==>
        live == old(live) && (node != null ==> node.refcount == old(node.refcount))
      ensures node != null && node != root && old(node.refcount) == 1 ==>
        live == old(live) - {node} && node.refcount == 0
      ensures node != null && node != root && old(node.refcount) > 1 ==>
        live == old(live) && node.refcount == old(node.refcount) - 1
    {
      if node == null || node == root {
        return;
      }
      if node.refcount == 0 {
        return;
      }
      node.refcount := node.refcount - 1;
      if node.refcount == 0 {
        live := live - {node};
      }
    }

    /** kvfs_lookup: a new node for the entry found. */
    method Lookup(node: VfsNode, name: string) returns (r: VfsNode?)
      requires Valid() && node in live
      modifies this`live
      ensures Valid()
      ensures r == null <==> LookupIn(tree.fs, node.entry, name) == None
      ensures r == null ==> live == old(live)
      ensures r != null ==>
        fresh(r) && r.refcount == 1 && LookupIn(tree.fs, node.entry, name) == Some(r.entry) && live == old(live) + {r}
    {
      hide WellFormed, Unique, Matches;
      var e := tree.LookupEntry(node.entry, name);
      LookupStays(tree.fs, node.entry, name);
      if e == null {
        return null;
      }
      r := new VfsNode(e);
      live := live + {r};
    }

    /** What a step of a resolver may hold: its start, or a node of its own. */
    ghost predicate Held(start: VfsNode, tmp: VfsNode)
      reads this`live, tmp
    {
      start in live && tmp in live && (tmp != start ==> tmp != root && tmp.refcount == 1)
    }

    /** One turn of the resolvers' loops: look up the next name, release the previous node unless it is the start. */
    method Advance(start: VfsNode, tmp: VfsNode, name: string) returns (next: VfsNode?)
      requires Valid() && Held(start, tmp)
      modifies this`live, (if tmp == start then {} else {tmp})`refcount
      ensures Valid()
      ensures next == null <==> LookupIn(tree.fs, tmp.entry, name) == None
      ensures next != null ==>
        fresh(next) && next.refcount == 1 && LookupIn(tree.fs, tmp.entry, name) == Some(next.entry)
      ensures live == old(live) - (if tmp == start then {} else {tmp}) + AtMostNode(next)
    {
      hide WellFormed, Unique, Matches;
      var free := tmp;
      next := Lookup(tmp, name);
      if free != start {
        Close(free);
      }
    }

    /** Where a resolver starts. */
    function Start(start: VfsNode?, path: string): VfsNode
      reads this
    {
      if IsAbsolute(path) || start == null then root else start
    }

    /** The loop of both resolvers over `names`: it leaves one more live node, or none. */
    method WalkFrom(
      start: VfsNode, tokens: array2<char>, part: nat, ghost names: seq<string>, n: nat) returns (node: VfsNode?)
      requires Valid() && start in live && n == |names|
      requires tokens.Length0 == MAX_PARTS && tokens.Length1 == MAX_NAME && part + n <= MAX_PARTS
      requires RowsAreNames(tokens, part, names)
      modifies this`live
      ensures Valid() && start.entry in tree.fs.nodes
      ensures node == null <==> Walk(tree.fs, start.entry, names) == None
      ensures node == null ==> live == old(live)
      ensures node != null ==> Walk(tree.fs, start.entry, names) == Some(node.entry)
      ensures node != null ==> node == start || (fresh(node) && node.refcount == 1)
      ensures node != null ==> live == old(live) + {node} && (names == [] <==> node == start)
    {
      hide WellFormed, Unique, Matches, Row, RowsAreNames, Walk, LookupIn;
      var tmp := start;
      var i := 0;
      WalkStart(tree.fs, start.entry, names);
      while i < n
        invariant 0 <= i <= n && Valid() && start in live && tmp in live && (i == 0 <==> tmp == start)
        invariant tmp != start ==> fresh(tmp) && tmp.refcount == 1
        invariant live == old(live) + {tmp}
        invariant Walk(tree.fs, tmp.entry, names[i..]) == Walk(tree.fs, start.entry, names)
      {
        var name := Row(tokens, part + i);
        RowIsName(tokens, part, names, i);
        WalkStep(tree.fs, tmp.entry, names, i);
        var next := Advance(start, tmp, name);
        if next == null {
          return null;
        }
        tmp := next;
        i := i + 1;
      }
      WalkEnd(tree.fs, tmp.entry, names);
      return tmp;
    }

    /** kvfs_resolve_from */
    method ResolveFrom(start: VfsNode?, path: string) returns (node: VfsNode?)
      requires Valid() && (start != null ==> start in live) && '\0' !in path
      modifies this`live
      ensures Valid() && Start(start, path).entry in tree.fs.nodes
      ensures var r := if Split(path) == [] then None else Walk(tree.fs, Start(start, path).entry, Names(Split(path)));
        if node == null then r == None else r == Some(node.entry)
      ensures live == old(live) + AtMostNode(node)
      ensures node != null ==> if Names(Split(path)) == [] then node == root else fresh(node) && node.refcount == 1
    {
      hide WellFormed, Unique, Matches, Walk, Split, RowsAreNames, Names;
      var tokens, count, part := SplitNames(path);
      RootTokenOf(path);
      if count == 0 {
        return null;
      }
      node := WalkFrom(Start(start, path), tokens, part, Names(Split(path)), count - part);
      NamesOnlyRoot(path);
    }

    /** kvfs_resolve_parent_from: the node of the parent, and the last token. */
    method ResolveParentFrom(start: VfsNode?, path: string) returns (node: VfsNode?, name: string)
      requires Valid() && (start != null ==> start in live) && '\0' !in path
      modifies this`live
      ensures Valid() && Start(start, path).entry in tree.fs.nodes
      ensures var r := if Split(path) == [] then None else Walk(tree.fs, Start(start, path).entry, ParentNames(Split(path)));
        if node == null then r == None else r == Some(node.entry)
      ensures Split(path) != [] ==> name == LastName(Split(path))
      ensures live == old(live) + AtMostNode(node)
      ensures node != null ==> if ParentNames(Split(path)) == [] then node == Start(start, path) else fresh(node) && node.refcount == 1
    {
      hide WellFormed, Unique, Matches, Walk, Split, RowsAreNames, Names;
      name := "";
      var tokens, count, part := SplitNames(path);
      RootTokenOf(path);
      if count == 0 {
        return null, name;
      }
      name := Row(tokens, count - 1);
      ghost var names := ParentNames(Split(path));
      FewerRows(tokens, part, Names(Split(path)), names);
      node := WalkFrom(Start(start, path), tokens, part, names, if part < count - 1 then count - 1 - part else 0);
    }

    /** kvfs_mkdir or kvfs_create of a name that was not found. */
    method MakeEntry(parent: VfsNode, name: string, directory: bool) returns (ok: bool)
      requires Valid() && parent in live
      requires LookupIn(tree.fs, parent.entry, name) == None
      modifies tree, parent.entry`child, parent.entry`nlink
      ensures Valid() && Made(old(tree.fs), tree.fs, parent.entry, name, directory)
      ensures ok <==> old(tree.fs.nodes[parent.entry].isDir)
      ensures fresh(tree.fs.nodes.Keys - old(tree.fs.nodes.Keys))
    {
      hide WellFormed, Unique, Matches, LookupIn, Made, WithChild;
      ghost var f := tree.fs;
      var e := tree.Create(parent.entry, name, directory);
      if e == null {
        NothingMade(f, parent.entry, name, directory);
        return false;
      }
      CreatedMeaning(f, parent.entry, e, name, directory);
      MadeKeeps(f, tree.fs, parent.entry, name, directory);
      return true;
    }

    /** The lookup that decides whether to create; a node it finds is released at once. */
    method Probe(parent: VfsNode, name: string) returns (found: bool)
      requires Valid() && parent in live
      modifies this`live
      ensures Valid() && live == old(live)
      ensures found <==> LookupIn(tree.fs, parent.entry, name).Some?
    {
      hide WellFormed, Unique, Matches, LookupIn;
      var node := Lookup(parent, name);
      found := node != null;
      if found {
        Close(node);
      }
    }

    /** The O_CREAT part of kvfs_open. */
    method CreateIn(parent: VfsNode, name: string, exclusive: bool, directory: bool) returns (ok: bool)
      requires Valid() && parent in live
      modifies this`live, tree, parent.entry`child, parent.entry`nlink
      ensures Valid() && live == old(live) && Made(old(tree.fs), tree.fs, parent.entry, name, directory)
      ensures ok <==> old(Creatable(tree.fs, parent.entry, name, exclusive))
    {
      hide WellFormed, Unique, Matches, LookupIn, Made, Creatable;
      ghost var f := tree.fs;
      var found := Probe(parent, name);
      LookupDecides(f, parent.entry, name, exclusive);
      if found {
        NothingMade(f, parent.entry, name, directory);
        return !exclusive;
      }
      ok := MakeEntry(parent, name, directory);
    }

    /** The end of kvfs_open: the node of the name; the parent is released unless it is the working directory. */
    method OpenLast(parent: VfsNode, name: string) returns (node: VfsNode?)
      requires Valid() && parent in live && cwd in live && (parent != cwd && parent != root ==> parent.refcount == 1)
      modifies this`live, ({parent} - {root})`refcount
      ensures Valid()
      ensures node == null <==> LookupIn(tree.fs, parent.entry, name) == None
      ensures node != null ==>
        fresh(node) && node.refcount == 1 && LookupIn(tree.fs, parent.entry, name) == Some(node.entry)
      ensures node != null ==> live == old(live) - (if parent == cwd || parent == root then {} else {parent}) + {node}
      ensures node == null ==> live == old(live) - (if parent == root || old(parent.refcount) > 1 then {} else {parent})
      ensures node != null && (parent == cwd || parent == root) ==> parent.refcount == old(parent.refcount)
      ensures node == null && parent != root ==> parent.refcount == old(parent.refcount) - 1
      ensures parent == root ==> parent.refcount == old(parent.refcount)
    {
      hide WellFormed, Unique, Matches, LookupIn;
      node := Lookup(parent, name);
      if node == null {
        Close(parent);
        return null;
      }
      if parent != cwd {
        Close(parent);
      }
    }

    /** kvfs_open, once the parent is resolved. */
    method OpenAt(
      parent: VfsNode, name: string, create: bool, exclusive: bool, directory: bool) returns (node: VfsNode?)
      requires Valid() && parent in live && cwd in live && (parent != cwd && parent != root ==> parent.refcount == 1)
      modifies this`live, ({parent} - {root})`refcount, tree, parent.entry`child, parent.entry`nlink
      ensures Valid() && Opened(old(tree.fs), tree.fs, parent.entry, name, create, directory)
      ensures node != null <==> old(Succeeds(tree.fs, parent.entry, name, create, exclusive))
      ensures node != null ==> fresh(node) && node.refcount == 1 && IsAt(tree.fs, node.entry, parent.entry, name)
      ensures node != null ==> live == old(live) - (if parent == cwd || parent == root then {} else {parent}) + {node}
      ensures node == null ==> live == old(live) - (if parent == root || old(parent.refcount) > 1 then {} else {parent})
      ensures node != null && (parent == cwd || parent == root) ==> parent.refcount == old(parent.refcount)
      ensures node == null && parent != root ==> parent.refcount == old(parent.refcount) - 1
      ensures parent == root ==> parent.refcount == old(parent.refcount)
    {
      hide WellFormed, Unique, Matches, LookupIn, Made, Creatable, Succeeds, Opened, IsAt;
      ghost var f := tree.fs;
      if create {
        var ok := CreateIn(parent, name, exclusive, directory);
        CreateDecides(f, tree.fs, parent.entry, name, exclusive, directory, ok);
        if !ok {
          Close(parent);
          return null;
        }
      } else {
        PlainDecides(f, parent.entry, name, exclusive, directory);
      }
      node := OpenLast(parent, name);
      if node != null { FoundIsAt(tree.fs, parent.entry, name); }
    }

    /** Where a path starts: at the root, or at the working directory. */
    function Base(path: string): VfsNode
      reads this
    {
      if IsAbsolute(path) then root else cwd
    }

    ghost function BasePath(path: string): Path
      requires Valid() && cwd in live
      reads this, tree, tree.fs.nodes.Keys, live
    {
      tree.fs.path[Base(path).entry]
    }

    /** The file system after kvfs_open. */
    ghost function AfterOpen(path: string, create: bool, directory: bool): map<Path, Kind>
      requires Valid() && cwd in live
      reads this, tree, tree.fs.nodes.Keys, live
    {
      OpenedFiles(Files(), BasePath(path), Split(path), create, directory)
    }

    /** kvfs_open would return a node. */
    ghost predicate Opens(path: string, create: bool, exclusive: bool)
      reads this, tree, tree.fs.nodes.Keys, live
    {
      Valid() && cwd in live && CanOpen(Files(), BasePath(path), Split(path), create, exclusive)
    }

    /** kvfs_open failed in the working directory: its node was released, although it stays the working directory. */
    predicate ReleasesCwd(path: string)
      reads this
    {
      !IsAbsolute(path) && |Split(path)| == 1 && cwd != root
    }

    /** The entry the resolver of kvfs_open reaches for the parent. */
    ghost function ParentEntry(path: string): (p: Option<Entry>)
      requires Valid() && cwd in live
      reads this, tree, tree.fs.nodes.Keys, live
      ensures p.Some? ==> Split(path) != []
    {
      if Split(path) == [] then None else Walk(tree.fs, Base(path).entry, ParentNames(Split(path)))
    }

    /** kvfs_open, seen on the tree. */
    method OpenOnTree(path: string, create: bool, exclusive: bool, directory: bool) returns (node: VfsNode?)
      requires Valid() && cwd in live && '\0' !in path
      modifies this`live, cwd`refcount, tree, tree.fs.nodes.Keys
      ensures Valid() && (old(ParentEntry(path)) == None ==> node == null && tree.fs == old(tree.fs))
      ensures old(ParentEntry(path)).Some? ==> (
          var p, name := old(ParentEntry(path)).value, LastName(Split(path));
          && Opened(old(tree.fs), tree.fs, p, name, create, directory)
          && (node != null <==> Succeeds(old(tree.fs), p, name, create, exclusive))
          && (node != null ==> IsAt(tree.fs, node.entry, p, name)))
      ensures node != null ==>
        fresh(node) && node.refcount == 1 && live == old(live) + {node} && cwd.refcount == old(cwd.refcount)
      ensures node == null ==> cwd.refcount == old(cwd.refcount) - if old(ReleasesCwd(path)) then 1 else 0
      ensures node == null ==> live == if old(ReleasesCwd(path)) && cwd.refcount == 0 then old(live) - {cwd} else old(live)
    {
      hide WellFormed, Unique, Matches, Abstract, Walk, Opened, Succeeds, IsAt, Split, Names, ParentNames;
      var parent, name := ResolveParentFrom(if IsAbsolute(path) then null else cwd, path);
      SoleName(path);
      NoNamesStay(tree.fs, Base(path).entry, ParentNames(Split(path)));
      if parent == null {
        return null;
      }
      node := OpenAt(parent, name, create, exclusive, directory);
    }

    /** kvfs_open */
    method Open(path: string, create: bool, exclusive: bool, directory: bool) returns (node: VfsNode?)
      requires Valid() && cwd in live && '\0' !in path
      modifies this`live, cwd`refcount, tree, tree.fs.nodes.Keys
      ensures Valid() && Files() == old(AfterOpen(path, create, directory))
      ensures node != null <==> old(Opens(path, create, exclusive))
      ensures node != null ==>
        fresh(node) && node.refcount == 1 && live == old(live) + {node} && cwd.refcount == old(cwd.refcount)
      ensures node != null ==> tree.fs.path[node.entry] == old(TargetPath(BasePath(path), Split(path)))
      ensures node == null ==> cwd.refcount == old(cwd.refcount) - if old(ReleasesCwd(path)) then 1 else 0
      ensures node == null ==> live == if old(ReleasesCwd(path)) && cwd.refcount == 0 then old(live) - {cwd} else old(live)
    {
      hide WellFormed, Unique, Matches, Abstract, Walk, Opened, Succeeds, IsAt, Split, Names, ParentNames, OpenedFiles;
      hide CanOpen, TargetPath;
      ghost var f, start, parent := tree.fs, Base(path).entry, ParentEntry(path);
      node := OpenOnTree(path, create, exclusive, directory);
      if parent == None {
        NoParent(f, start, Split(path), create, exclusive, directory);
      } else {
        OpenMeaning(
          f, tree.fs, start, Split(path), create, exclusive, directory, if node == null then None else Some(node.entry));
      }
    }

    /** kvfs_lookup_open */
    method LookupOpen(path: string) returns (node: VfsNode?)
      requires Valid() && cwd in live && '\0' !in path
      modifies this`live
      ensures Valid() && live == old(live) + AtMostNode(node) && Base(path).entry in tree.fs.nodes
      ensures var r := if Split(path) == [] then None else Walk(tree.fs, Base(path).entry, Names(Split(path)));
        if node == null then r == None else r == Some(node.entry)
      ensures node != null ==> if Names(Split(path)) == [] then node == root else fresh(node) && node.refcount == 1
    {
      hide WellFormed, Unique, Matches, Walk, Split, Names;
      if IsAbsolute(path) {
        node := ResolveFrom(null, path);
      } else {
        node := ResolveFrom(cwd, path);
      }
    }

    /** kvfs_chdir: the old working directory's node is released, the new one kept. */
    method Chdir(path: string) returns (ok: bool)
      requires Valid() && cwd in live && '\0' !in path
      modifies this`live, this`cwd, cwd`refcount
      ensures Valid() && cwd in live
      ensures ok <==> old(CanChdir(Files(), BasePath(path), Split(path)))
      ensures !ok ==> cwd == old(cwd) && live == old(live)
      ensures ok ==> tree.fs.path[cwd.entry] == old(FoundPath(BasePath(path), Split(path)))
      ensures ok ==> cwd == root || (fresh(cwd) && cwd.refcount == 1)
      ensures ok ==> live == old(live) - (if old(cwd) == root || old(cwd.refcount) > 1 then {} else {old(cwd)}) + {cwd}
      ensures ok && old(cwd) != root && old(cwd.refcount) > 1 ==> old(cwd).refcount == old(cwd.refcount) - 1
    {
      hide WellFormed, Unique, Tmpfs.Matches, Abstract, Walk, Split, Names, CanChdir, FoundPath;
      var dir := LookupOpen(path);
      ChdirMeaning(tree.fs, Base(path).entry, Split(path));
      if dir == null {
        return false;
      }
      IsDirOf(tree.fs.nodes, dir.entry);
      if !dir.entry.isDir {
        Close(dir);
        return false;
      }
      Exchange(dir);
      ok := true;
    }

    /** The working directory's node is released, and `dir` takes its place. */
    method Exchange(dir: VfsNode)
      requires Valid() && cwd in live && dir in live && (dir != root ==> dir != cwd)
      modifies this`live, this`cwd, cwd`refcount
      ensures Valid() && cwd == dir && cwd in live && (old(cwd) != dir ==> dir.refcount == old(dir.refcount))
      ensures live == old(live) - (if old(cwd) == root || old(cwd.refcount) > 1 then {} else {old(cwd)})
      ensures old(cwd) != root && old(cwd.refcount) > 1 ==> old(cwd).refcount == old(cwd.refcount) - 1
    {
      hide WellFormed, Unique, Tmpfs.Matches;
      Close(cwd);
      cwd := dir;
    }

    /** No live node refers to the entry at a path. */
    ghost predicate UnreferencedAt(p: Path)
      reads this, tree, live
    {
      forall n <- live :: n.entry in tree.fs.path ==> tree.fs.path[n.entry] != p
    }

    /** The path has a name and leads to an entry: a call that then refuses it keeps the entry's node. */
    ghost predicate Reaches(path: string)
      reads this, tree, tree.fs.nodes.Keys, live
    {
      Valid() && cwd in live && Names(Split(path)) != [] && Passable(Files(), BasePath(path), Names(Split(path)))
    }

    /** The end of kvfs_rmdir, once the path has led to `node`. */
    method RmdirNode(node: VfsNode) returns (ok: bool)
      requires Valid() && node in live && (node != root ==> node.refcount == 1)
      modifies this`live, tree, tree.fs.nodes.Keys, ({node} - {root})`refcount
      ensures tree.Valid() && Unique(tree.fs)
      ensures ok <==> old(tree.fs.nodes[node.entry].isDir && CanGo(tree.fs, node.entry))
      ensures Abstract(tree.fs) == if ok then old(Files() - {tree.fs.path[node.entry]}) else old(Files())
      ensures !ok ==> Valid() && live == old(live)
      ensures ok ==> node != root && live == old(live) - {node} && (NodesOk() <==> old(OnlyNode(node)))
    {
      hide WellFormed, Unique, Matches, Abstract, CanGo, Removed;
      ghost var f := tree.fs;
      IsDirOf(f.nodes, node.entry);
      if !node.entry.isDir {
        return false;
      }
      ok := tree.Rmdir(node.entry);
      if ok {
        RemovedMeaning(f, node.entry);
        NotTheRoot(f, node.entry);
        Close(node);
      }
    }

    /** The end of kvfs_unlink, likewise. */
    method UnlinkNode(node: VfsNode) returns (ok: bool)
      requires Valid() && node in live && (node != root ==> node.refcount == 1)
      modifies this`live, tree, tree.fs.nodes.Keys, ({node} - {root})`refcount
      ensures tree.Valid() && Unique(tree.fs)
      ensures ok <==> old(!tree.fs.nodes[node.entry].isDir)
      ensures Abstract(tree.fs) == if ok then old(Files() - {tree.fs.path[node.entry]}) else old(Files())
      ensures !ok ==> Valid() && live == old(live)
      ensures ok ==> node != root && live == old(live) - {node} && (NodesOk() <==> old(OnlyNode(node)))
    {
      hide WellFormed, Unique, Matches, Abstract, CanGo, Removed;
      ghost var f := tree.fs;
      IsDirOf(f.nodes, node.entry);
      if node.entry.isDir {
        return false;
      }
      ok := tree.Unlink(node.entry);
      RemovedMeaning(f, node.entry);
      NotTheRoot(f, node.entry);
      Close(node);
    }

    /** No other live node refers to the entry of `node`. */
    ghost predicate OnlyNode(node: VfsNode)
      reads this, live
    {
      forall n <- live :: n != node ==> n.entry != node.entry
    }

    /**
     * kvfs_rmdir. When it succeeds, nodes that still refer to the directory are left dangling: all stays in order exactly
     * if there were none.
     */
    method Rmdir(path: string) returns (ok: bool)
      requires Valid() && cwd in live && '\0' !in path
      modifies this`live, tree, tree.fs.nodes.Keys
      ensures tree.Valid() && Unique(tree.fs)
      ensures ok <==> old(CanRmdir(Files(), BasePath(path), Split(path)))
      ensures Abstract(tree.fs) == if ok then old(Files() - {FoundPath(BasePath(path), Split(path))}) else old(Files())
      ensures !ok ==> Valid() && Left(old(live), live, if old(Reaches(path)) then 1 else 0)
      ensures ok ==> live == old(live) && (NodesOk() <==> old(UnreferencedAt(FoundPath(BasePath(path), Split(path)))))
    {
      hide WellFormed, Unique, Matches, Abstract, Walk, Split, CanRmdir, FoundPath, CanGo, Passable, Left;
      ghost var f, start, before := tree.fs, Base(path).entry, live;
      var node := LookupOpen(path);
      RmdirMeaning(f, start, Split(path));
      LeftBehind(before, node, root);
      PathsOfAll(f);
      if node == null {
        return false;
      }
      SamePathSameEntry(f, node.entry);
      ok := RmdirNode(node);
    }

    /** kvfs_unlink, likewise: any regular file the path leads to, and nothing else. */
    method Unlink(path: string) returns (ok: bool)
      requires Valid() && cwd in live && '\0' !in path
      modifies this`live, tree, tree.fs.nodes.Keys
      ensures tree.Valid() && Unique(tree.fs)
      ensures ok <==> old(CanUnlink(Files(), BasePath(path), Split(path)))
      ensures Abstract(tree.fs) == if ok then old(Files() - {FoundPath(BasePath(path), Split(path))}) else old(Files())
      ensures !ok ==> Valid() && Left(old(live), live, if old(Reaches(path)) then 1 else 0)
      ensures ok ==> live == old(live) && (NodesOk() <==> old(UnreferencedAt(FoundPath(BasePath(path), Split(path)))))
    {
      hide WellFormed, Unique, Matches, Abstract, Walk, Split, CanUnlink, FoundPath, CanGo, Passable, Left;
      ghost var f, start, before := tree.fs, Base(path).entry, live;
      var node := LookupOpen(path);
      UnlinkMeaning(f, start, Split(path));
      LeftBehind(before, node, root);
      PathsOfAll(f);
      if node == null {
        return false;
      }
      SamePathSameEntry(f, node.entry);
      ok := UnlinkNode(node);
    }
  }

  /** So many nodes more are live, and none less. */
  ghost predicate Left(before: set<VfsNode>, after: set<VfsNode>, n: nat) {
    before <= after && |after - before| == n
  }

  lemma LeftBehind(before: set<VfsNode>, node: VfsNode?, root: VfsNode)
    requires root in before
    ensures Left(before, before, 0)
    ensures node != null && node !in before ==> Left(before, before + {node}, 1)
    ensures node == root ==> before + {node} == before
  {
    if node != null && node !in before { assert before + {node} - before == {node}; }
  }

  lemma PathsOfAll(f: Fs)
    requires WellFormed(f)
    ensures f.path.Keys == f.nodes.Keys
  {
  }

  lemma SamePathSameEntry(f: Fs, e: Entry)
    requires WellFormed(f) && Unique(f) && e in f.nodes
    ensures forall d <- f.nodes :: d in f.path && (f.path[d] == f.path[e] <==> d == e)
  {
  }

  lemma NotTheRoot(f: Fs, e: Entry)
    requires WellFormed(f) && e in f.nodes && CanGo(f, e)
    ensures e != f.root
  {
  }

  function EntryAt(n: VfsNode?): Option<Entry> {
    if n == null then None else Some(n.entry)
  }

  function AtMostNode(n: VfsNode?): set<VfsNode> {
    if n == null then {} else {n}
  }

  lemma NamesOnlyRoot(path: string)
    ensures Split(path) != [] && Names(Split(path)) == [] ==> IsAbsolute(path)
  {
    RootTokenOf(path);
  }

  lemma RowIsName(tokens: array2<char>, part: nat, names: seq<string>, i: nat)
    requires tokens.Length0 == MAX_PARTS && tokens.Length1 == MAX_NAME && part + |names| <= MAX_PARTS && i < |names|
    requires RowsAreNames(tokens, part, names)
    ensures Row(tokens, part + i) == names[i]
  {
  }

  lemma WalkStart(f: Fs, e: Entry, names: seq<string>)
    requires WellFormed(f) && e in f.nodes
    ensures Walk(f, e, names[0..]) == Walk(f, e, names)
  {
    assert names[0..] == names;
  }

  lemma WalkStep(f: Fs, e: Entry, names: seq<string>, i: nat)
    requires WellFormed(f) && e in f.nodes && i < |names|
    ensures LookupIn(f, e, names[i]).Some? ==> LookupIn(f, e, names[i]).value in f.nodes
    ensures Walk(f, e, names[i..]) == match LookupIn(f, e, names[i]) case None => None case Some(c) => Walk(f, c, names[i + 1..])
  {
    LookupStays(f, e, names[i]);
    assert names[i..][1..] == names[i + 1..] && names[i..][0] == names[i];
  }

  lemma WalkEnd(f: Fs, e: Entry, names: seq<string>)
    requires WellFormed(f) && e in f.nodes
    ensures Walk(f, e, names[|names|..]) == Some(e)
  {
  }

  function LastName(ts: seq<string>): string
    requires ts != []
  {
    ts[|ts| - 1]
  }

  /** The file system after an O_CREAT open of `name` in the directory at `p`: one new key, or none. */
  function Touched(m: map<Path, Kind>, p: Path, name: string, directory: bool): map<Path, Kind>
    requires p in m
  {
    if m[p] == Directory && Normal1(p, name) !in m then m[Normal1(p, name) := if directory then Directory else File([])] else m
  }

  lemma FewerRows(tokens: array2<char>, part: nat, names: seq<string>, fewer: seq<string>)
    requires tokens.Length0 == MAX_PARTS && tokens.Length1 == MAX_NAME && part + |names| <= MAX_PARTS
    requires RowsAreNames(tokens, part, names) && fewer <= names
    ensures RowsAreNames(tokens, part, fewer)
  {
  }

  /** `g` is the tree `f` after an O_CREAT open of `name` in the entry `p`. */
  ghost predicate Made(f: Fs, g: Fs, p: Entry, name: string, directory: bool) {
    && Shaped(f) && Shaped(g) && Unique(f) && Unique(g) && p in f.nodes && p in g.nodes && f.nodes.Keys <= g.nodes.Keys
    && g.path[p] == f.path[p] && f.path[p] in Abstract(f)
    && Abstract(g) == Touched(Abstract(f), f.path[p], name, directory)
  }

  /** The name can be opened with O_CREAT: in a directory, and not there already when O_EXCL asks for that. */
  ghost predicate Creatable(f: Fs, p: Entry, name: string, exclusive: bool) {
    && Shaped(f) && Unique(f) && p in f.nodes && f.nodes[p].isDir && (exclusive ==> Normal1(f.path[p], name) !in Abstract(f))
  }

  lemma MadeKeeps(f: Fs, g: Fs, p: Entry, name: string, directory: bool)
    requires Made(f, g, p, name, directory)
    ensures Shaped(f) && Shaped(g) && Unique(g) && p in f.nodes && p in g.nodes && f.nodes.Keys <= g.nodes.Keys
    ensures g.path[p] == f.path[p]
  {
  }

  lemma LookupDecides(f: Fs, p: Entry, name: string, exclusive: bool)
    requires WellFormed(f) && Unique(f) && p in f.nodes
    ensures if LookupIn(f, p, name).Some? then Creatable(f, p, name, exclusive) <==> !exclusive
            else Creatable(f, p, name, exclusive) <==> f.nodes[p].isDir
    ensures LookupIn(f, p, name).Some? ==> f.nodes[p].isDir && Normal1(f.path[p], name) in Abstract(f)
  {
    hide Abstract, Unique, LookupIn, ListAt, PlacedAt, LinksAt;
    LookupFinds(f, p, name);
    LookupMisses(f, p, name);
    if LookupIn(f, p, name).Some? { AbstractHas(f, LookupIn(f, p, name).value); }
  }

  lemma NothingMade(f: Fs, p: Entry, name: string, directory: bool)
    requires WellFormed(f) && Unique(f) && p in f.nodes
    requires f.nodes[p].isDir ==> Normal1(f.path[p], name) in Abstract(f)
    ensures Made(f, f, p, name, directory)
  {
    hide Abstract, Unique, ListAt, PlacedAt, LinksAt;
    AbstractHas(f, p);
  }

  /** A creation that found no entry of the name. */
  lemma CreatedMeaning(f: Fs, p: Entry, e: Entry, name: string, isDir: bool)
    requires Addable(f, p, e) && Unique(f) && LookupIn(f, p, name) == None
    ensures Made(f, WithChild(f, p, e, name, isDir), p, name, isDir)
  {
    hide Abstract, Unique, ListAt, PlacedAt, LinksAt;
    AbstractHas(f, p);
    LookupMisses(f, p, name);
    AddedIsOneKey(f, p, e, name, isDir);
  }

  // ---- kvfs_open on the tree ----

  ghost predicate Opened(f: Fs, g: Fs, p: Entry, name: string, create: bool, directory: bool) {
    Shaped(g) && p in g.nodes && if create then Made(f, g, p, name, directory) else g == f
  }

  /** The open finds or makes the entry. */
  ghost predicate Succeeds(f: Fs, p: Entry, name: string, create: bool, exclusive: bool) {
    && Shaped(f) && Unique(f) && p in f.nodes && f.nodes[p].isDir
    && if Normal1(f.path[p], name) in Abstract(f) then !(create && exclusive) else create
  }

  ghost predicate IsAt(f: Fs, e: Entry, p: Entry, name: string) {
    Shaped(f) && e in f.nodes && p in f.nodes && f.path[e] == Normal1(f.path[p], name)
  }

  lemma FoundIsAt(f: Fs, p: Entry, name: string)
    requires WellFormed(f) && Unique(f) && p in f.nodes
    ensures LookupIn(f, p, name).Some? ==> IsAt(f, LookupIn(f, p, name).value, p, name)
  {
    hide Unique, LookupIn, ListAt, PlacedAt, LinksAt;
    LookupFinds(f, p, name);
  }

  lemma PlainDecides(f: Fs, p: Entry, name: string, exclusive: bool, directory: bool)
    requires WellFormed(f) && Unique(f) && p in f.nodes
    ensures Opened(f, f, p, name, false, directory)
    ensures LookupIn(f, p, name).Some? <==> Succeeds(f, p, name, false, exclusive)
  {
    hide Abstract, Unique, LookupIn, ListAt, PlacedAt, LinksAt;
    LookupDecides(f, p, name, exclusive);
    LookupMisses(f, p, name);
  }

  lemma CreateDecides(f: Fs, g: Fs, p: Entry, name: string, exclusive: bool, directory: bool, ok: bool)
    requires Made(f, g, p, name, directory) && WellFormed(g)
    requires ok <==> Creatable(f, p, name, exclusive)
    ensures Opened(f, g, p, name, true, directory) && (ok <==> Succeeds(f, p, name, true, exclusive))
    ensures ok ==> LookupIn(g, p, name).Some?
  {
    hide Abstract, Unique, LookupIn, ListAt, PlacedAt, LinksAt;
    AbstractHas(f, p);
    AbstractHas(g, p);
    LookupMisses(g, p, name);
  }

  // ---- kvfs_open on the file system the tree stands for ----

  /** Every prefix of the parent's path is an existing directory (the parent itself may be a file). */
  predicate ParentFound(m: map<Path, Kind>, start: Path, ts: seq<string>) {
    ts != [] && Passable(m, start, ParentNames(ts))
  }

  /** The path opened, normalised. */
  function TargetPath(start: Path, ts: seq<string>): Path {
    if ts == [] then start else Normal1(Normal(start, ParentNames(ts)), LastName(ts))
  }

  /** The file system after the open. */
  function OpenedFiles(m: map<Path, Kind>, start: Path, ts: seq<string>, create: bool, directory: bool): map<Path, Kind> {
    if create && ParentFound(m, start, ts) && Normal(start, ParentNames(ts)) in m
    then Touched(m, Normal(start, ParentNames(ts)), LastName(ts), directory) else m
  }

  /** The open returns a node. */
  predicate CanOpen(m: map<Path, Kind>, start: Path, ts: seq<string>, create: bool, exclusive: bool) {
    && ParentFound(m, start, ts) && Normal(start, ParentNames(ts)) in m && m[Normal(start, ParentNames(ts))] == Directory
    && if TargetPath(start, ts) in m then !(create && exclusive) else create
  }

  lemma NoParent(f: Fs, start: Entry, ts: seq<string>, create: bool, exclusive: bool, directory: bool)
    requires WellFormed(f) && Unique(f) && start in f.nodes && (ts == [] || Walk(f, start, ParentNames(ts)) == None)
    ensures !CanOpen(Abstract(f), f.path[start], ts, create, exclusive)
    ensures OpenedFiles(Abstract(f), f.path[start], ts, create, directory) == Abstract(f)
  {
    hide Abstract, Unique, Walk, ListAt, PlacedAt, LinksAt, Passable;
    WalkRefines(f, start, ParentNames(ts));
  }

  /** What was done at the parent entry, seen from the paths. */
  lemma OpenMeaning(
    f: Fs, g: Fs, start: Entry, ts: seq<string>, create: bool, exclusive: bool, directory: bool,
    found: Option<Entry>)
    requires WellFormed(f) && Unique(f) && start in f.nodes && ts != [] && Walk(f, start, ParentNames(ts)).Some?
    requires Opened(f, g, Walk(f, start, ParentNames(ts)).value, LastName(ts), create, directory)
    requires found.Some? <==> Succeeds(f, Walk(f, start, ParentNames(ts)).value, LastName(ts), create, exclusive)
    requires found.Some? ==> IsAt(g, found.value, Walk(f, start, ParentNames(ts)).value, LastName(ts))
    ensures Shaped(g) && Unique(g) && Abstract(g) == OpenedFiles(Abstract(f), f.path[start], ts, create, directory)
    ensures found.Some? <==> CanOpen(Abstract(f), f.path[start], ts, create, exclusive)
    ensures found.Some? ==> found.value in g.nodes && g.path[found.value] == TargetPath(f.path[start], ts)
  {
    hide Abstract, Unique, Walk, ListAt, PlacedAt, LinksAt, Passable;
    WalkRefines(f, start, ParentNames(ts));
    AbstractHas(f, Walk(f, start, ParentNames(ts)).value);
  }

  lemma SoleName(path: string)
    ensures !IsAbsolute(path) ==> (|Split(path)| == 1 <==> Split(path) != [] && ParentNames(Split(path)) == [])
  {
    RootTokenOf(path);
  }

  lemma NoNamesStay(f: Fs, e: Entry, names: seq<string>)
    requires WellFormed(f) && e in f.nodes
    ensures names == [] ==> Walk(f, e, names) == Some(e)
  {
  }

  // ---- kvfs_rmdir, kvfs_unlink on the file system the tree stands for ----

  function FoundPath(start: Path, ts: seq<string>): Path { Normal(start, Names(ts)) }

  /** The path leads to a directory other than the root, and no key extends it. */
  ghost predicate CanRmdir(m: map<Path, Kind>, start: Path, ts: seq<string>) {
    var p := FoundPath(start, ts);
    && ts != [] && Passable(m, start, Names(ts)) && p in m && m[p] == Directory && p != []
    && forall q :: q in m ==> !(p < q)
  }

  lemma RootPath(f: Fs, e: Entry)
    requires WellFormed(f) && e in f.nodes
    ensures f.path[e] == [] <==> e == f.root
  {
    assert PlacedAt(f, e);
  }

  lemma LeafIff(f: Fs, e: Entry)
    requires WellFormed(f) && Unique(f) && e in f.nodes
    ensures f.kids[e] == [] <==> forall q :: q in Abstract(f) ==> !(f.path[e] < q)
  {
    hide Abstract;
    if f.kids[e] == [] {
      NothingBelow(f, e);
    } else {
      var c := f.kids[e][0];
      assert ListAt(f, e) && PlacedAt(f, c);
      AbstractHas(f, c);
      assert f.path[e] < f.path[c];
    }
  }

  lemma RmdirMeaning(f: Fs, start: Entry, ts: seq<string>)
    requires WellFormed(f) && Unique(f) && start in f.nodes
    ensures ts != [] && Walk(f, start, Names(ts)).Some? ==> (
      var e := Walk(f, start, Names(ts)).value;
      f.path[e] == FoundPath(f.path[start], ts) && (CanRmdir(Abstract(f), f.path[start], ts) <==> f.nodes[e].isDir && CanGo(f, e)))
    ensures ts == [] || Walk(f, start, Names(ts)) == None ==> !CanRmdir(Abstract(f), f.path[start], ts)
    ensures Walk(f, start, Names(ts)).Some? <==> Passable(Abstract(f), f.path[start], Names(ts))
  {
    hide Abstract, Unique, Walk, ListAt, PlacedAt, LinksAt, Passable;
    WalkRefines(f, start, Names(ts));
    if Walk(f, start, Names(ts)).Some? {
      var e := Walk(f, start, Names(ts)).value;
      AbstractHas(f, e);
      RootPath(f, e);
      LeafIff(f, e);
    }
  }

  predicate CanUnlink(m: map<Path, Kind>, start: Path, ts: seq<string>) {
    ts != [] && Passable(m, start, Names(ts)) && FoundPath(start, ts) in m && m[FoundPath(start, ts)].File?
  }

  lemma UnlinkMeaning(f: Fs, start: Entry, ts: seq<string>)
    requires WellFormed(f) && Unique(f) && start in f.nodes
    ensures ts != [] && Walk(f, start, Names(ts)).Some? ==> (
      var e := Walk(f, start, Names(ts)).value;
      f.path[e] == FoundPath(f.path[start], ts) && (CanUnlink(Abstract(f), f.path[start], ts) <==> !f.nodes[e].isDir))
    ensures ts == [] || Walk(f, start, Names(ts)) == None ==> !CanUnlink(Abstract(f), f.path[start], ts)
    ensures Walk(f, start, Names(ts)).Some? <==> Passable(Abstract(f), f.path[start], Names(ts))
  {
    hide Abstract, Unique, Walk, ListAt, PlacedAt, LinksAt, Passable;
    WalkRefines(f, start, Names(ts));
    if Walk(f, start, Names(ts)).Some? { AbstractHas(f, Walk(f, start, Names(ts)).value); }
  }

  predicate CanChdir(m: map<Path, Kind>, start: Path, ts: seq<string>) {
    ts != [] && Passable(m, start, Names(ts)) && FoundPath(start, ts) in m && m[FoundPath(start, ts)] == Directory
  }

  lemma ChdirMeaning(f: Fs, start: Entry, ts: seq<string>)
    requires WellFormed(f) && Unique(f) && start in f.nodes
    ensures ts != [] && Walk(f, start, Names(ts)).Some? ==> (
      var e := Walk(f, start, Names(ts)).value;
      f.path[e] == FoundPath(f.path[start], ts) && (CanChdir(Abstract(f), f.path[start], ts) <==> f.nodes[e].isDir))
    ensures ts == [] || Walk(f, start, Names(ts)) == None ==> !CanChdir(Abstract(f), f.path[start], ts)
  {
    hide Abstract, Unique, Walk, ListAt, PlacedAt, LinksAt, Passable;
    WalkRefines(f, start, Names(ts));
    if Walk(f, start, Names(ts)).Some? { AbstractHas(f, Walk(f, start, Names(ts)).value); }
  }
}
