/** initrd.c: unpacking an image into the mounted tree. */
module Initrd {
  import opened Base
  import opened TmpfsEntry
  import opened FsTree
  import opened FsEdits
  import opened Paths
  import opened Vfs
  import opened InitrdImage
  import InitrdRoundTrip
  import Tmpfs

  /**
   * The child of the name, made first when it is not there: kinitrd_get_or_create_directory,
   * kinitrd_open_or_create_file.
   */
  method GetOrCreate(vfs: Vfs, parent: VfsNode, name: string, directory: bool) returns (child: VfsNode?)
    requires vfs.Valid() && parent in vfs.live
    modifies vfs`live, vfs.tree, parent.entry`child, parent.entry`nlink
    ensures vfs.Valid() && Made(old(vfs.tree.fs), vfs.tree.fs, parent.entry, name, directory)
    ensures child != null <==> old(vfs.tree.fs.nodes[parent.entry].isDir)
    ensures vfs.live == old(vfs.live) + AtMostNode(child)
    ensures fresh(vfs.tree.fs.nodes.Keys - old(vfs.tree.fs.nodes.Keys))
    ensures child != null ==> fresh(child) && child.refcount == 1 && IsAt(vfs.tree.fs, child.entry, parent.entry, name)
  {
    hide ListAt, PlacedAt, LinksAt, Unique, Tmpfs.Matches, LookupIn, Made, Creatable, IsAt, Succeeds, Opened;
    ghost var f := vfs.tree.fs;
    child := vfs.Lookup(parent, name);
    LookupDecides(f, parent.entry, name, false);
    FoundIsAt(f, parent.entry, name);
    if child != null {
      NothingMade(f, parent.entry, name, directory);
      return;
    }
    var ok := vfs.MakeEntry(parent, name, directory);
    CreateDecides(f, vfs.tree.fs, parent.entry, name, false, directory, ok);
    if !ok {
      return null;
    }
    child := vfs.Lookup(parent, name);
    FoundIsAt(vfs.tree.fs, parent.entry, name);
  }

  /** What one component of a directory path does: down into the child of the name, made when missing. */
  ghost predicate Descended(f: Fs, g: Fs, e: Entry, name: string, next: Option<Entry>) {
    Made(f, g, e, name, true) && (next.Some? <==> f.nodes[e].isDir) && (next.Some? ==> IsAt(g, next.value, e, name))
  }

  /** One turn of kinitrd_ensure_directory. */
  method Descend(vfs: Vfs, root: VfsNode, current: VfsNode, name: string) returns (next: VfsNode?)
    requires vfs.Valid() && root in vfs.live && current in vfs.live
    requires (current != root ==> current != vfs.root && current.refcount == 1)
    modifies vfs`live, vfs.tree, current.entry`child, current.entry`nlink, ({current} - {root})`refcount
    ensures vfs.Valid() && current.entry in old(vfs.tree.fs.nodes)
    ensures Descended(old(vfs.tree.fs), vfs.tree.fs, current.entry, name, EntryAt(next))
    ensures next != null ==> fresh(next) && next.refcount == 1
    ensures vfs.live == old(vfs.live) - (if current == root then {} else {current}) + AtMostNode(next)
    ensures fresh(vfs.tree.fs.nodes.Keys - old(vfs.tree.fs.nodes.Keys))
  {
    hide WellFormed, Unique, Tmpfs.Matches, Abstract, Made, IsAt;
    next := GetOrCreate(vfs, current, name, true);
    if current != root {
      vfs.Close(current);
    }
  }

  // ---- Directories ----

  /** `g` is the tree after the directories of a path have been ensured; `found` is the last one. */
  ghost predicate EnsuredIn(f: Fs, g: Fs, names: seq<string>, found: Option<Entry>) {
    && Shaped(f) && Unique(f) && Shaped(g) && Unique(g) && [] in Abstract(f) && Abstract(g) == Ensure(Abstract(f), [], names).0
    && (found.Some? <==> Ensure(Abstract(f), [], names).1.Some?)
    && (found.Some? ==> found.value in g.nodes && g.path[found.value] == Ensure(Abstract(f), [], names).1.value)
  }

  /** The loop stands at `e`, with the names from `i` on still to go. */
  ghost predicate Ensuring(f: Fs, g: Fs, e: Entry, names: seq<string>, i: nat) {
    && Shaped(f) && Unique(f) && Shaped(g) && Unique(g) && [] in Abstract(f) && e in g.nodes && i <= |names|
    && g.path[e] in Abstract(g) && Ensure(Abstract(g), g.path[e], names[i..]) == Ensure(Abstract(f), [], names)
  }

  lemma EnsureStarts(f: Fs, names: seq<string>)
    requires WellFormed(f) && Unique(f)
    ensures Ensuring(f, f, f.root, names, 0)
  {
    AbstractHas(f, f.root);
    assert names[0..] == names;
  }

  lemma EnsureFrom(m: map<Path, Kind>, p: Path, names: seq<string>, i: nat)
    requires p in m && i < |names|
    ensures Ensure(m, p, names[i..]) ==
      if m[p] != Directory then (m, None) else Ensure(Touched(m, p, names[i], true), Normal1(p, names[i]), names[i + 1..])
  {
    assert names[i..][0] == names[i] && names[i..][1..] == names[i + 1..];
  }

  lemma EnsureTurns(f: Fs, g: Fs, h: Fs, e: Entry, names: seq<string>, i: nat, next: Option<Entry>)
    requires Ensuring(f, g, e, names, i) && i < |names| && Descended(g, h, e, names[i], next)
    ensures if next.Some? then Ensuring(f, h, next.value, names, i + 1) else EnsuredIn(f, h, names, None)
  {
    hide Abstract, Unique, Ensure;
    EnsureFrom(Abstract(g), g.path[e], names, i);
    AbstractHas(g, e);
    if next.Some? { AbstractHas(h, next.value); }
  }

  lemma EnsureEnds(f: Fs, g: Fs, e: Entry, names: seq<string>)
    requires Ensuring(f, g, e, names, |names|)
    ensures EnsuredIn(f, g, names, Some(e))
  {
    hide Abstract, Unique;
    assert names[|names|..] == [];
  }

  /** kinitrd_ensure_directory on the rows of a split path */
  method EnsureDirectory(
    vfs: Vfs, tokens: array2<char>, part: nat, n: nat, ghost names: seq<string>) returns (current: VfsNode?)
    requires vfs.Valid() && n == |names|
    requires tokens.Length0 == MAX_PARTS && tokens.Length1 == MAX_NAME && part + n <= MAX_PARTS
    requires RowsAreNames(tokens, part, names)
    modifies vfs`live, vfs.tree, vfs.tree.fs.nodes.Keys
    ensures vfs.Valid() && EnsuredIn(old(vfs.tree.fs), vfs.tree.fs, names, EntryAt(current))
    ensures vfs.live == old(vfs.live) + AtMostNode(current)
    ensures current != null ==> if names == [] then current == vfs.root else fresh(current) && current.refcount == 1
    ensures fresh(vfs.tree.fs.nodes.Keys - old(vfs.tree.fs.nodes.Keys))
  {
    hide WellFormed, Unique, Tmpfs.Matches, Row, RowsAreNames, Ensuring, EnsuredIn, Descended;
    var root := vfs.root;
    var node := root;
    ghost var f := vfs.tree.fs;
    EnsureStarts(f, names);
    var i := 0;
    while i < n
      invariant 0 <= i <= n && vfs.Valid() && node in vfs.live && (i == 0 <==> node == root)
      invariant node != root ==> fresh(node) && node.refcount == 1
      invariant vfs.live == old(vfs.live) + {node} && fresh(vfs.tree.fs.nodes.Keys - old(vfs.tree.fs.nodes.Keys))
      invariant Ensuring(f, vfs.tree.fs, node.entry, names, i)
    {
      var name := Row(tokens, part + i);
      RowIsName(tokens, part, names, i);
      ghost var g := vfs.tree.fs;
      var next := Descend(vfs, root, node, name);
      EnsureTurns(f, g, vfs.tree.fs, node.entry, names, i, EntryAt(next));
      if next == null {
        return null;
      }
      node := next;
      i := i + 1;
    }
    EnsureEnds(f, vfs.tree.fs, node.entry, names);
    current := node;
  }

  // ---- Files ----

  /** The heap: some block of the length asked for, with the bytes of the old one. */
  method Room(e: Entry, n: nat) returns (grow: Growth)
    requires n < TWO32
    ensures grow.Moved? && n <= |grow.bytes| && e.Carried(0, n, grow)
  {
    var before := e.block;
    grow := Moved(1, seq(n, i requires 0 <= i < n => if i < |before| then before[i] else 0));
  }

  ghost predicate WrittenAt(f: Fs, g: Fs, e: Entry, data: Bytes, ok: bool) {
    && Shaped(f) && Unique(f) && Shaped(g) && Unique(g) && e in f.nodes && f.path[e] in Abstract(f) && g.nodes.Keys == f.nodes.Keys
    && (Abstract(g), ok) == Written(Abstract(f), f.path[e], data)
  }

  lemma NotWritten(f: Fs, e: Entry, data: Bytes)
    requires WellFormed(f) && Unique(f) && e in f.nodes && (data == [] || f.nodes[e].isDir)
    ensures WrittenAt(f, f, e, data, data == [])
  {
    hide Abstract;
    AbstractHas(f, e);
  }

  lemma BytesWritten(f: Fs, g: Fs, e: Entry, data: Bytes)
    requires WellFormed(f) && Unique(f) && e in f.nodes && !f.nodes[e].isDir && data != []
    requires g == WithContent(f, e, Overwrite(f.nodes[e].content, 0, data))
    ensures WrittenAt(f, g, e, data, true)
  {
    hide Abstract, Overwrite, Unique;
    AbstractHas(f, e);
    RewrittenIsOneKey(f, e, Overwrite(f.nodes[e].content, 0, data));
  }

  /** With such a block a write at the start of a file cannot fail. */
  lemma FileServed(nodes: map<Entry, Node>, e: Entry, n: nat, grow: Growth)
    requires Tmpfs.Matches(nodes) && e in nodes && 0 < n < TWO32 && grow.Moved? && n <= |grow.bytes|
    ensures !e.WriteFaults(0, n, grow) && !e.WriteRefused(0, n, grow)
  {
  }

  lemma SplicedAtStart(before: Bytes, after: Bytes, data: Bytes)
    requires TmpfsEntry.WrittenBy(before, after, 0, data)
    ensures after == Overwrite(before, 0, data)
  {
  }

  lemma WrittenKeeps(f: Fs, g: Fs, e: Entry, data: Bytes, ok: bool)
    requires WrittenAt(f, g, e, data, ok)
    ensures Shaped(g) && Unique(g) && g.nodes.Keys == f.nodes.Keys
  {
  }

  /** kinitrd_write_file_data, through kvfs_write at offset 0 */
  method WriteFileData(vfs: Vfs, file: VfsNode, data: Bytes) returns (ok: bool)
    requires vfs.Valid() && file in vfs.live && |data| < TWO32
    modifies vfs.tree, file.entry
    ensures vfs.Valid() && WrittenAt(old(vfs.tree.fs), vfs.tree.fs, file.entry, data, ok)
  {
    hide WellFormed, Unique, Tmpfs.Matches, WrittenAt, WithContent, Overwrite, TmpfsEntry.WrittenBy;
    ghost var f := vfs.tree.fs;
    Tmpfs.IsDirOf(f.nodes, file.entry);
    if data == [] || file.entry.isDir {
      NotWritten(f, file.entry, data);
      return data == [];
    }
    var grow := Room(file.entry, |data|);
    FileServed(f.nodes, file.entry, |data|, grow);
    var written := vfs.tree.WriteFile(file.entry, 0, data, grow);
    SplicedAtStart(f.nodes[file.entry].content, file.entry.Content(), data);
    BytesWritten(f, vfs.tree.fs, file.entry, data);
    WrittenKeeps(f, vfs.tree.fs, file.entry, data, true);
    ok := written == Returned(|data|);
  }

  /** `g` is the tree `f` after one entry of the image. */
  ghost predicate EntryAdded(f: Fs, g: Fs, name: string, kind: nat, data: Bytes, ok: bool) {
    && Shaped(f) && Unique(f) && Shaped(g) && Unique(g) && [] in Abstract(f)
    && (Abstract(g), ok) == AddEntry(Abstract(f), name, kind, data)
  }

  ghost predicate FileAdded(f: Fs, g: Fs, names: seq<string>, data: Bytes, ok: bool) {
    && Shaped(f) && Unique(f) && Shaped(g) && Unique(g) && [] in Abstract(f)
    && (Abstract(g), ok) == AddFile(Abstract(f), names, data)
  }

  lemma NoFileName(f: Fs, data: Bytes)
    requires WellFormed(f) && Unique(f)
    ensures FileAdded(f, f, [], data, false)
  {
    AbstractHas(f, f.root);
  }

  lemma NoFileParent(f: Fs, g: Fs, names: seq<string>, data: Bytes)
    requires names != [] && EnsuredIn(f, g, names[..|names| - 1], None)
    ensures FileAdded(f, g, names, data, false)
  {
    hide Abstract, Unique, Ensure;
  }

  lemma FileParentIsFile(f: Fs, g: Fs, h: Fs, names: seq<string>, p: Entry, data: Bytes)
    requires names != [] && EnsuredIn(f, g, names[..|names| - 1], Some(p)) && Made(g, h, p, names[|names| - 1], false)
    requires !g.nodes[p].isDir
    ensures FileAdded(f, h, names, data, false)
  {
    hide Abstract, Unique, Ensure;
    AbstractHas(g, p);
  }

  lemma FileInPlace(f: Fs, g: Fs, h: Fs, k: Fs, names: seq<string>, p: Entry, e: Entry, data: Bytes, ok: bool)
    requires names != [] && EnsuredIn(f, g, names[..|names| - 1], Some(p)) && Made(g, h, p, names[|names| - 1], false)
    requires g.nodes[p].isDir
    requires IsAt(h, e, p, names[|names| - 1]) && WrittenAt(h, k, e, data, ok)
    ensures FileAdded(f, k, names, data, ok)
  {
    hide Abstract, Unique, Ensure, Written;
    AbstractHas(g, p);
  }

  /** Releases the nodes of a file entry, on every exit. */
  method Release(vfs: Vfs, parent: VfsNode, file: VfsNode?)
    requires vfs.Valid() && parent in vfs.live && (parent != vfs.root ==> parent.refcount == 1)
    requires file != null ==> file in vfs.live && file.refcount == 1 && file != vfs.root && file != parent
    modifies vfs`live, (AtMostNode(file) + {parent} - {vfs.root})`refcount
    ensures vfs.Valid() && vfs.live == old(vfs.live) - AtMostNode(file) - ({parent} - {vfs.root})
  {
    hide WellFormed, Unique, Tmpfs.Matches;
    vfs.Close(file);
    if parent != vfs.root {
      vfs.Close(parent);
    }
  }

  /** The second half of kinitrd_unpack_file: the file in its parent, its bytes, and the release of both nodes. */
  method FileUnder(
    vfs: Vfs, parent: VfsNode, name: string, data: Bytes, ghost f: Fs, ghost names: seq<string>) returns (ok: bool)
    requires vfs.Valid() && parent in vfs.live && (parent != vfs.root ==> parent.refcount == 1) && |data| < TWO32
    requires names != [] && name == names[|names| - 1]
    requires EnsuredIn(f, vfs.tree.fs, names[..|names| - 1], Some(parent.entry))
    modifies vfs`live, ({parent} - {vfs.root})`refcount, vfs.tree, vfs.tree.fs.nodes.Keys
    ensures vfs.Valid() && vfs.live == old(vfs.live) - ({parent} - {vfs.root})
    ensures FileAdded(f, vfs.tree.fs, names, data, ok)
    ensures fresh(vfs.tree.fs.nodes.Keys - old(vfs.tree.fs.nodes.Keys))
  {
    hide WellFormed, Unique, Tmpfs.Matches, EnsuredIn, FileAdded, Made, IsAt, WrittenAt;
    ghost var g := vfs.tree.fs;
    var file := GetOrCreate(vfs, parent, name, false);
    ghost var h := vfs.tree.fs;
    if file == null {
      FileParentIsFile(f, g, h, names, parent.entry, data);
      Release(vfs, parent, null);
      return false;
    }
    ok := WriteFileData(vfs, file, data);
    WrittenKeeps(h, vfs.tree.fs, file.entry, data, ok);
    FileInPlace(f, g, h, vfs.tree.fs, names, parent.entry, file.entry, data, ok);
    Release(vfs, parent, file);
  }

  /** kinitrd_unpack_file, once the name is split. */
  method UnpackFile(
    vfs: Vfs, tokens: array2<char>, count: nat, part: nat, ghost names: seq<string>, data: Bytes) returns (ok: bool)
    requires vfs.Valid() && |data| < TWO32 && part + |names| == count <= MAX_PARTS && part <= 1
    requires tokens.Length0 == MAX_PARTS && tokens.Length1 == MAX_NAME && RowsAreNames(tokens, part, names)
    requires (part == 1 || count == 0)
    modifies vfs`live, vfs.tree, vfs.tree.fs.nodes.Keys
    ensures vfs.Valid() && vfs.live == old(vfs.live) && FileAdded(old(vfs.tree.fs), vfs.tree.fs, names, data, ok)
    ensures fresh(vfs.tree.fs.nodes.Keys - old(vfs.tree.fs.nodes.Keys))
  {
    hide WellFormed, Unique, Tmpfs.Matches, Row, RowsAreNames, EnsuredIn, FileAdded;
    ghost var f := vfs.tree.fs;
    if count < 2 {
      NoFileName(f, data);
      return false;
    }
    RowIsName(tokens, part, names, |names| - 1);
    FewerRows(tokens, part, names, names[..|names| - 1]);
    var name := Row(tokens, count - 1);
    var parent := EnsureDirectory(vfs, tokens, part, count - 1 - part, names[..|names| - 1]);
    if parent == null {
      NoFileParent(f, vfs.tree.fs, names, data);
      return false;
    }
    ok := FileUnder(vfs, parent, name, data, f, names);
  }

  // ---- Entries and the image ----

  lemma NotAdded(f: Fs, name: string, kind: nat, data: Bytes)
    requires WellFormed(f) && Unique(f) && (KindOfType(kind) == OtherEntry || !IsAbsolute(name))
    ensures EntryAdded(f, f, name, kind, data, false)
  {
    AbstractHas(f, f.root);
  }

  lemma DirectoryAdded(f: Fs, g: Fs, name: string, kind: nat, data: Bytes, found: Option<Entry>)
    requires KindOfType(kind) == DirectoryEntry && IsAbsolute(name) && EnsuredIn(f, g, Names(Split(name)), found)
    ensures EntryAdded(f, g, name, kind, data, found.Some?)
  {
    hide Abstract, Unique, Ensure, Split, Names;
  }

  lemma FileEntryAdded(f: Fs, g: Fs, name: string, kind: nat, data: Bytes, ok: bool)
    requires KindOfType(kind) == FileEntry && IsAbsolute(name) && FileAdded(f, g, Names(Split(name)), data, ok)
    ensures EntryAdded(f, g, name, kind, data, ok)
  {
    hide Abstract, Unique, AddFile, Split, Names;
  }

  /** kinitrd_unpack_entry: no node stays behind, whatever happens. */
  method UnpackEntry(vfs: Vfs, name: string, kind: nat, data: Bytes) returns (ok: bool)
    requires vfs.Valid() && |data| < TWO32 && '\0' !in name
    modifies vfs`live, vfs.tree, vfs.tree.fs.nodes.Keys
    ensures vfs.Valid() && vfs.live == old(vfs.live) && EntryAdded(old(vfs.tree.fs), vfs.tree.fs, name, kind, data, ok)
    ensures fresh(vfs.tree.fs.nodes.Keys - old(vfs.tree.fs.nodes.Keys))
  {
    hide WellFormed, Unique, Tmpfs.Matches, Row, RowsAreNames, EnsuredIn, FileAdded, EntryAdded, Split, Names;
    hide KindOfType;
    ghost var f := vfs.tree.fs;
    if KindOfType(kind) == OtherEntry || !IsAbsolute(name) {
      NotAdded(f, name, kind, data);
      return false;
    }
    var tokens, count, part := SplitNames(name);
    RootTokenOf(name);
    if KindOfType(kind) == DirectoryEntry {
      var dir := EnsureDirectory(vfs, tokens, part, count - part, Names(Split(name)));
      DirectoryAdded(f, vfs.tree.fs, name, kind, data, EntryAt(dir));
      if dir != null {
        Release(vfs, dir, null);
      }
      return dir != null;
    }
    ok := UnpackFile(vfs, tokens, count, part, Names(Split(name)), data);
    FileEntryAdded(f, vfs.tree.fs, name, kind, data, ok);
  }

  /** The tree and the files read so far; the rest of the image decides the end. */
  ghost predicate Unpacking(f: Fs, g: Fs, image: Bytes, c: nat) {
    && Shaped(f) && Unique(f) && Shaped(g) && Unique(g) && c <= |image| && [] in Abstract(f) && [] in Abstract(g)
    && Unpacked(Abstract(g), image, c) == Unpacked(Abstract(f), image, 0)
  }

  /** What the image makes of the tree. */
  ghost predicate UnpackedTo(f: Fs, g: Fs, image: Bytes, ok: bool) {
    && Shaped(f) && Unique(f) && Shaped(g) && Unique(g) && [] in Abstract(f)
    && Unpacked(Abstract(f), image, 0) == (Abstract(g), ok)
  }

  lemma UnpackingStarts(f: Fs, image: Bytes)
    requires WellFormed(f) && Unique(f)
    ensures Unpacking(f, f, image, 0)
  {
    AbstractHas(f, f.root);
  }

  lemma UnpackingEnds(f: Fs, g: Fs, image: Bytes, c: nat)
    requires Unpacking(f, g, image, c)
    ensures |image| - c < HEADER ==> UnpackedTo(f, g, image, false)
    ensures |image| - c >= HEADER && IsEnd(HeaderAt(image, c)) ==> UnpackedTo(f, g, image, true)
    ensures |image| - c >= HEADER && !IsEnd(HeaderAt(image, c)) && |image| - (c + HEADER) < HeaderAt(image, c).size ==>
      UnpackedTo(f, g, image, false)
  {
    hide Abstract, Unique, HeaderAt, AddEntry;
  }

  lemma UnpackingTurns(f: Fs, g: Fs, k: Fs, image: Bytes, c: nat, h: Header, ok: bool)
    requires Unpacking(f, g, image, c) && c + HEADER + h.size <= |image| && h == HeaderAt(image, c) && !IsEnd(h)
    requires EntryAdded(g, k, h.name, h.kind, image[c + HEADER..c + HEADER + h.size], ok)
    ensures if ok then Unpacking(f, k, image, c + HEADER + h.size) else UnpackedTo(f, k, image, false)
  {
    hide Abstract, Unique, HeaderAt, AddEntry;
  }

  /** kinitrd_unpack: the tree afterwards, the answer, and no node left behind on any exit. */
  method Unpack(vfs: Vfs, image: Bytes) returns (ok: bool)
    requires vfs.Valid() && |image| < TWO32
    modifies vfs`live, vfs.tree, vfs.tree.fs.nodes.Keys
    ensures vfs.Valid() && vfs.live == old(vfs.live) && UnpackedTo(old(vfs.tree.fs), vfs.tree.fs, image, ok)
  {
    hide WellFormed, Unique, Tmpfs.Matches, HeaderAt, EntryAdded, Unpacking, UnpackedTo, Unpacked;
    ghost var f := vfs.tree.fs;
    UnpackingStarts(f, image);
    var cursor := 0;
    while |image| - cursor >= HEADER
      invariant 0 <= cursor <= |image| && vfs.Valid() && vfs.live == old(vfs.live)
      invariant fresh(vfs.tree.fs.nodes.Keys - old(vfs.tree.fs.nodes.Keys))
      invariant Unpacking(f, vfs.tree.fs, image, cursor)
      decreases |image| - cursor
    {
      var entry := HeaderAt(image, cursor);
      UnpackingEnds(f, vfs.tree.fs, image, cursor);
      if IsEnd(entry) {
        return true;
      }
      var start := cursor + HEADER;
      if |image| - start < entry.size {
        return false;
      }
      ghost var g := vfs.tree.fs;
      NameHasNoNul(image, cursor);
      ok := UnpackEntry(vfs, entry.name, entry.kind, image[start..start + entry.size]);
      UnpackingTurns(f, g, vfs.tree.fs, image, cursor, entry, ok);
      if !ok {
        return false;
      }
      cursor := start + entry.size;
    }
    UnpackingEnds(f, vfs.tree.fs, image, cursor);
    ok := false;
  }

  lemma NameHasNoNul(image: Bytes, c: nat)
    requires c + HEADER <= |image|
    ensures '\0' !in HeaderAt(image, c).name
  {
  }

  /** The boot image: on the freshly mounted tree a printed image unpacks completely, to exactly what was printed. */
  lemma PrintedImageBoots(f: Fs, g: Fs, items: seq<Item>, ok: bool)
    requires (forall i <- items :: Printable(i) && InitrdRoundTrip.Good(i)) && InitrdRoundTrip.Apart(items)
    requires UnpackedTo(f, g, PrintedImage(items), ok) && Abstract(f) == map[[] := Directory]
    ensures ok && InitrdRoundTrip.Describes(Abstract(g), items)
  {
    InitrdRoundTrip.InitrdRoundTrip(items);
  }
}
