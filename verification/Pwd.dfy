/** pwd.c and kmemmove.c: printing the path of the working directory, and reading it back. */
module Pwd {
  import opened Base
  import opened TmpfsEntry
  import opened FsTree
  import opened Paths
  import Tmpfs
  import opened Vfs
  import FsRuns

  const BUFFER := MAX_PARTS * MAX_NAME

  /** kmemmove inside one buffer, whatever the overlap. */
  method Kmemmove(a: array<char>, dst: nat, src: nat, n: nat)
    requires dst + n <= a.Length && src + n <= a.Length
    modifies a
    ensures a[dst..dst + n] == old(a[src..src + n])
    ensures forall p :: 0 <= p < a.Length && !(dst <= p < dst + n) ==> a[p] == old(a[p])
  {
    if src < dst {
      var left: nat := n;
      while left > 0
        invariant left <= n
        invariant forall p :: dst + left <= p < dst + n ==> a[p] == old(a[p - dst + src])
        invariant forall p :: 0 <= p < a.Length && !(dst + left <= p < dst + n) ==> a[p] == old(a[p])
      {
        left := left - 1;
        a[dst + left] := a[src + left];
      }
    } else {
      var done: nat := 0;
      while done < n
        invariant done <= n
        invariant forall p :: dst <= p < dst + done ==> a[p] == old(a[p - dst + src])
        invariant forall p :: 0 <= p < a.Length && !(dst <= p < dst + done) ==> a[p] == old(a[p])
      {
        a[dst + done] := a[src + done];
        done := done + 1;
      }
    }
  }

  /** The terminated string at the start of the buffer. */
  ghost predicate Reads(a: array<char>, s: string)
    reads a
  {
    |s| < a.Length && a[..|s|] == s && a[|s|] == '\0'
  }

  /** kmemcpy of a name into the buffer. */
  method CopyName(a: array<char>, at: nat, name: string)
    requires at + |name| <= a.Length
    modifies a
    ensures a[at..at + |name|] == name
    ensures forall p :: 0 <= p < a.Length && !(at <= p < at + |name|) ==> a[p] == old(a[p])
  {
    var i := 0;
    while i < |name|
      invariant 0 <= i <= |name|
      invariant forall p :: 0 <= p < i ==> a[at + p] == name[p]
      invariant forall p :: 0 <= p < a.Length && !(at <= p < at + i) ==> a[p] == old(a[p])
    {
      a[at + i] := name[i];
      i := i + 1;
    }
  }

  /**
   * What pwd does: it prints, refuses a working directory that is no directory, or writes past the end of its buffer.
   */
  datatype Answer = Text | NoDirectory | Overrun

  /** One turn of the loop: "/" and the name go in front of what is there. */
  method Prepend(a: array<char>, ghost s: string, len: nat, name: string) returns (newLen: nat)
    requires Reads(a, s) && len == |s| && |name| + 1 + |s| < a.Length
    modifies a
    ensures newLen == |name| + 1 + |s| && Reads(a, "/" + name + s)
  {
    Kmemmove(a, |name| + 1, 0, len + 1);
    assert a[|name| + 1..][..len + 1] == s + ['\0'] by {
      assert a[|name| + 1..][..len + 1] == a[|name| + 1..|name| + 1 + len + 1];
    }
    ghost var tail := a[|name| + 1..];
    a[0] := '/';
    CopyName(a, 1, name);
    assert a[|name| + 1..] == tail;
    newLen := len + |name| + 1;
    InFront(a[..], name, s);
  }

  lemma InFront(a: seq<char>, name: string, s: string)
    requires |name| + 1 + |s| < |a| && a[0] == '/' && a[1..1 + |name|] == name
    requires a[|name| + 1..][..|s| + 1] == s + ['\0']
    ensures var n := 1 + |name| + |s|; a[..n] == "/" + name + s && a[n] == '\0'
  {
    var n, tail := 1 + |name| + |s|, a[|name| + 1..];
    assert a[..n] == a[..1] + a[1..1 + |name|] + tail[..|s|];
    assert tail[..|s|] == tail[..|s| + 1][..|s|] == (s + ['\0'])[..|s|] == s;
    assert a[n] == tail[|s|] == tail[..|s| + 1][|s|];
  }

  /** What the loop has done: the names from the node down to the working directory stand in the buffer. */
  ghost predicate Printed(f: Fs, e: Entry, below: Path, whole: Path) {
    Shaped(f) && e in f.nodes && f.path[e] + below == whole
  }

  /** The entry above, and what the loop will have done there. */
  ghost predicate IsAbove(f: Fs, e: Entry, up: Entry, below: Path, whole: Path) {
    && Shaped(f) && e in f.nodes && up in f.nodes && f.nodes[up].isDir && (up == e ==> below == whole)
    && (up != e ==> |f.path[up]| < |f.path[e]| && Printed(f, up, [f.nodes[e].name] + below, whole))
  }

  lemma DotDotFinds(f: Fs, e: Entry)
    requires WellFormed(f) && e in f.nodes && f.nodes[e].isDir
    ensures LookupIn(f, e, "..") == Some(if e == f.root then e else f.nodes[e].parent)
  {
    hide NamedIn, LinksAt;
    assert ListAt(f, e) && PlacedAt(f, e);
    if e != f.root { ParentExists(f, e); }
  }

  lemma AboveIs(f: Fs, e: Entry, below: Path, whole: Path)
    requires WellFormed(f) && Printed(f, e, below, whole) && f.nodes[e].isDir
    ensures IsAbove(f, e, if e == f.root then e else f.nodes[e].parent, below, whole)
  {
    hide ListAt, LinksAt;
    if e != f.root {
      ParentExists(f, e);
      assert PlacedAt(f, e);
      assert f.path[f.nodes[e].parent] + ([f.nodes[e].name] + below) == whole;
    } else {
      assert [] + below == below;
    }
  }

  lemma UpOne(f: Fs, e: Entry, below: Path, whole: Path)
    requires WellFormed(f) && Printed(f, e, below, whole) && f.nodes[e].isDir
    ensures LookupIn(f, e, "..").Some? && IsAbove(f, e, LookupIn(f, e, "..").value, below, whole)
  {
    hide NamedIn, ListAt, PlacedAt, LinksAt, IsAbove, LookupIn;
    DotDotFinds(f, e);
    AboveIs(f, e, below, whole);
  }

  lemma SlashedMore(name: string, below: Path)
    ensures Slashed([name] + below) == "/" + name + Slashed(below)
  {
    assert ([name] + below)[1..] == below;
  }

  lemma {:induction false} SlashedParts(above: Path, below: Path)
    ensures |Slashed(above + below)| == |Slashed(above)| + |Slashed(below)|
  {
    if above == [] {
      assert above + below == below;
    } else {
      assert (above + below)[1..] == above[1..] + below;
      SlashedParts(above[1..], below);
    }
  }

  /** What pwd prints. */
  function PathText(p: Path): string {
    if p == [] then ROOT else Slashed(p)
  }

  /** The name of `e` goes in front. */
  method PrintName(
    e: Entry, a: array<char>, len: nat, ghost f: Fs, ghost up: Entry, ghost below: Path, ghost whole: Path)
    returns (fits: bool, newLen: nat, ghost more: Path)
    requires IsAbove(f, e, up, below, whole) && up != e && f.nodes[e].name == e.name
    requires Reads(a, Slashed(below)) && len == |Slashed(below)|
    modifies a
    ensures fits ==> Reads(a, Slashed(more)) && newLen == |Slashed(more)| && Printed(f, up, more, whole)
    ensures !fits ==> |Slashed(whole)| >= a.Length
  {
    more := [e.name] + below;
    SlashedMore(e.name, below);
    SlashedParts(f.path[up], more);
    if |e.name| + 1 + len >= a.Length {
      return false, len, more;
    }
    fits := true;
    newLen := Prepend(a, Slashed(below), len, e.name);
  }

  /** A node on the way up. */
  ghost predicate Climbing(vfs: Vfs, node: VfsNode)
    reads vfs, vfs.tree, node
  {
    node in vfs.live && node != vfs.root && node.refcount == 1 && node.entry in vfs.tree.fs.nodes && vfs.tree.fs.nodes[node.entry].isDir
  }

  /** The parent's node; when it is the node's own entry both are released. */
  method Above(vfs: Vfs, node: VfsNode, ghost below: Path, ghost whole: Path) returns (up: VfsNode?)
    requires vfs.Valid() && Climbing(vfs, node) && Printed(vfs.tree.fs, node.entry, below, whole)
    modifies vfs`live, node`refcount
    ensures vfs.Valid()
    ensures up == null ==> below == whole && vfs.live == old(vfs.live) - {node}
    ensures up != null ==> fresh(up) && vfs.live == old(vfs.live) + {up} && Climbing(vfs, up) && Climbing(vfs, node)
    ensures up != null ==> up.entry != node.entry && IsAbove(vfs.tree.fs, node.entry, up.entry, below, whole)
  {
    hide WellFormed, Unique, Tmpfs.Matches, LookupIn, IsAbove;
    UpOne(vfs.tree.fs, node.entry, below, whole);
    AboveFacts(vfs.tree.fs, node.entry, LookupIn(vfs.tree.fs, node.entry, "..").value, below, whole);
    up := vfs.Lookup(node, "..");
    if up.entry == node.entry {
      vfs.Close(up);
      vfs.Close(node);
      up := null;
    }
  }

  lemma AboveFacts(f: Fs, e: Entry, up: Entry, below: Path, whole: Path)
    requires IsAbove(f, e, up, below, whole)
    ensures up in f.nodes && f.nodes[up].isDir && (up == e ==> below == whole)
    ensures Shaped(f) && (up != e ==> |f.path[up]| < |f.path[e]|)
  {
  }

  /**
   * One turn: the name of the node goes in front, the node is released, its parent is next. Null: the node was the
   * root.
   */
  method Turn(vfs: Vfs, node: VfsNode, a: array<char>, len: nat, ghost below: Path, ghost whole: Path)
    returns (fits: bool, up: VfsNode?, newLen: nat, ghost more: Path)
    requires vfs.Valid() && Climbing(vfs, node) && Printed(vfs.tree.fs, node.entry, below, whole)
    requires Reads(a, Slashed(below)) && len == |Slashed(below)|
    modifies a, vfs`live, node`refcount
    ensures !fits ==> |Slashed(whole)| >= a.Length
    ensures fits ==> vfs.Valid() && Reads(a, Slashed(more)) && newLen == |Slashed(more)|
    ensures fits && up == null ==> more == whole && vfs.live == old(vfs.live) - {node}
    ensures fits && up != null ==> fresh(up) && vfs.live == old(vfs.live) - {node} + {up} && Climbing(vfs, up)
    ensures fits && up != null ==>
      Printed(vfs.tree.fs, up.entry, more, whole) && |vfs.tree.fs.path[up.entry]| < |vfs.tree.fs.path[node.entry]|
  {
    hide WellFormed, Unique, Tmpfs.Matches, IsAbove, Slashed, Reads;
    up := Above(vfs, node, below, whole);
    if up == null {
      return true, null, len, below;
    }
    NameOf(vfs.tree.fs, node.entry);
    AboveFacts(vfs.tree.fs, node.entry, up.entry, below, whole);
    fits, newLen, more := PrintName(node.entry, a, len, vfs.tree.fs, up.entry, below, whole);
    if fits {
      vfs.Close(node);
    }
  }

  lemma NameOf(f: Fs, e: Entry)
    requires Tmpfs.Matches(f.nodes) && e in f.nodes
    ensures f.nodes[e].name == e.name
  {
  }

  /** The node the loop starts with. */
  method Begin(vfs: Vfs) returns (node: VfsNode?)
    requires vfs.Valid() && vfs.cwd in vfs.live
    modifies vfs`live
    ensures vfs.Valid() && vfs.live == old(vfs.live) + AtMostNode(node) && vfs.cwd.entry in vfs.tree.fs.nodes
    ensures node == null <==> !vfs.tree.fs.nodes[vfs.cwd.entry].isDir
    ensures node != null ==>
      fresh(node) && Climbing(vfs, node) && Printed(vfs.tree.fs, node.entry, [], vfs.tree.fs.path[vfs.cwd.entry])
  {
    hide ListAt, PlacedAt, LinksAt, Unique, Tmpfs.Matches, LookupIn;
    DotIsItself(vfs.tree.fs, vfs.cwd.entry);
    node := vfs.Lookup(vfs.cwd, ".");
    assert vfs.tree.fs.path[vfs.cwd.entry] + [] == vfs.tree.fs.path[vfs.cwd.entry];
  }

  /** The loop of kshell_pwd. */
  method Climb(vfs: Vfs, start: VfsNode, buffer: array<char>, ghost whole: Path) returns (fits: bool)
    requires vfs.Valid() && Climbing(vfs, start) && Printed(vfs.tree.fs, start.entry, [], whole)
    requires Reads(buffer, Slashed([]))
    modifies buffer, vfs`live, start`refcount
    ensures fits <==> |Slashed(whole)| < buffer.Length
    ensures fits ==> vfs.Valid() && vfs.live == old(vfs.live) - {start} && Reads(buffer, Slashed(whole))
  {
    hide WellFormed, Unique, Tmpfs.Matches, Reads;
    assert Slashed([]) == [];
    var node: VfsNode?, len := start, 0;
    ghost var below: Path := [];
    while node != null
      invariant vfs.Valid() && vfs.live == old(vfs.live) - {start} + AtMostNode(node)
      invariant Reads(buffer, Slashed(below)) && len == |Slashed(below)|
      invariant node == null ==> below == whole
      invariant node != null ==>
        (node == start || fresh(node)) && Climbing(vfs, node) && Printed(vfs.tree.fs, node.entry, below, whole)
      decreases if node == null then 0 else |vfs.tree.fs.path[node.entry]| + 1
    {
      fits, node, len, below := Turn(vfs, node, buffer, len, below, whole);
      if !fits {
        return;
      }
    }
    fits := true;
    ReadsFits(buffer, Slashed(whole));
  }

  lemma ReadsFits(a: array<char>, s: string)
    requires Reads(a, s)
    ensures |s| < a.Length
  {
  }

  /** kshell_pwd, up to the printing; nothing is said of memory once the buffer is overrun. */
  method Pwd(vfs: Vfs) returns (buffer: array<char>, answer: Answer)
    requires vfs.Valid() && vfs.cwd in vfs.live
    modifies vfs`live
    ensures fresh(buffer) && buffer.Length == BUFFER
    ensures answer == NoDirectory <==> !old(vfs.tree.fs.nodes[vfs.cwd.entry].isDir)
    ensures answer == Overrun <==>
      old(vfs.tree.fs.nodes[vfs.cwd.entry].isDir && |Slashed(vfs.tree.fs.path[vfs.cwd.entry])| >= BUFFER)
    ensures answer != Overrun ==> vfs.Valid() && vfs.live == old(vfs.live)
    ensures answer == Text ==> Reads(buffer, PathText(old(vfs.tree.fs.path[vfs.cwd.entry])))
  {
    hide ListAt, PlacedAt, LinksAt, Unique, Tmpfs.Matches, Reads, Slashed, PathText, Climbing;
    buffer := EmptyBuffer();
    var node := Begin(vfs);
    if node == null {
      return buffer, NoDirectory;
    }
    answer := PrintFrom(vfs, node, buffer, vfs.tree.fs.path[vfs.cwd.entry]);
  }

  /** The loop, and the text of the root. */
  method PrintFrom(vfs: Vfs, node: VfsNode, buffer: array<char>, ghost whole: Path) returns (answer: Answer)
    requires vfs.Valid() && Climbing(vfs, node) && Printed(vfs.tree.fs, node.entry, [], whole)
    requires Reads(buffer, Slashed([])) && buffer.Length >= 2
    modifies buffer, vfs`live, node`refcount
    ensures answer == if |Slashed(whole)| < buffer.Length then Text else Overrun
    ensures answer == Text ==> vfs.Valid() && vfs.live == old(vfs.live) - {node} && Reads(buffer, PathText(whole))
  {
    hide WellFormed, Unique, Tmpfs.Matches, Reads, Slashed, PathText, Printed, Climbing;
    var fits := Climb(vfs, node, buffer, whole);
    if !fits {
      return Overrun;
    }
    Finish(buffer, whole);
    answer := Text;
  }

  method EmptyBuffer() returns (buffer: array<char>)
    ensures fresh(buffer) && buffer.Length == BUFFER && Reads(buffer, Slashed([]))
  {
    buffer := new char[BUFFER](_ => '\0');
  }

  /** An empty buffer stands for the root. */
  method Finish(buffer: array<char>, ghost whole: Path)
    requires buffer.Length >= 2 && Reads(buffer, Slashed(whole))
    modifies buffer
    ensures Reads(buffer, PathText(whole))
  {
    TextOf(whole);
    hide Slashed, PathText;
    if buffer[0] == '\0' {
      buffer[0], buffer[1] := '/', '\0';
    }
  }

  lemma DotIsItself(f: Fs, e: Entry)
    requires WellFormed(f) && e in f.nodes
    ensures LookupIn(f, e, ".") == if f.nodes[e].isDir then Some(e) else None
  {
    assert ListAt(f, e);
  }

  lemma TextOf(p: Path)
    ensures PathText(p) == (if Slashed(p) == [] then "/" else Slashed(p)) && (Slashed(p) != [] ==> Slashed(p)[0] == '/')
  {
  }

  // ---- Reading it back ----

  lemma {:induction false} SlashedLength(p: Path)
    requires forall t <- p :: IsToken(t)
    ensures |Slashed(p)| <= |p| * MAX_NAME
  {
    if p != [] {
      assert p[0] in p;
      SlashedLength(p[1..]);
    }
  }

  /** Down to depth 15 the text fits the buffer of pwd. */
  lemma TextFits(p: Path)
    requires |p| < MAX_PARTS && forall t <- p :: IsToken(t)
    ensures |Slashed(p)| < BUFFER && |PathText(p)| < BUFFER
  {
    SlashedLength(p);
  }

  lemma {:induction false} SlashedEven(p: Path, k: nat)
    requires forall t <- p :: |t| == k
    ensures |Slashed(p)| == |p| * (k + 1)
  {
    hide Slashed;
    FirstSlashed(p);
    if p != [] {
      assert p[0] in p && forall t <- p[1..] :: t in p;
      SlashedEven(p[1..], k);
      OneMoreTimes(|p[1..]|, k + 1);
    }
  }

  lemma FirstSlashed(p: Path)
    ensures |Slashed(p)| == if p == [] then 0 else 1 + |p[0]| + |Slashed(p[1..])|
  {
  }

  lemma OneMoreTimes(n: nat, k: nat)
    ensures (n + 1) * k == n * k + k
  {
  }

  /** Examples: 16 names of the greatest length overrun the buffer by the terminator; 17 short ones do not. */
  lemma SixteenLongNames(p: Path, q: Path)
    requires |p| == 16 && (forall t <- p :: |t| == MAX_NAME - 1) && |q| == 17 && (forall t <- q :: |t| == 1)
    ensures |Slashed(p)| == BUFFER && |Slashed(q)| < BUFFER
  {
    SlashedEven(p, MAX_NAME - 1);
    SlashedEven(q, 1);
  }

  /** The text of a path splits into a root token and the path, cut off after 15 names. */
  lemma TextSplits(p: Path)
    requires forall t <- p :: IsToken(t)
    ensures IsAbsolute(PathText(p)) && Names(Split(PathText(p))) == if |p| < MAX_PARTS then p else p[..MAX_PARTS - 1]
  {
    TextOf(p);
    TokensOfSlashed(p, MAX_PARTS - 1);
    NamesOfSplit(PathText(p));
    if p == [] {
      assert ROOT[1..] == "" && Tokens(ROOT, MAX_PARTS - 1) == [];
    }
  }

  /**
   * Resolving what pwd prints reaches the entry it was printed for, exactly when it lies at most 15 names below the
   * root.
   */
  lemma PwdRoundTrip(f: Fs, e: Entry)
    requires WellFormed(f) && Unique(f) && e in f.nodes && forall t <- f.path[e] :: FsRuns.IsName(t)
    ensures Walk(f, f.root, Names(Split(PathText(f.path[e])))) == Some(e) <==> |f.path[e]| < MAX_PARTS
  {
    hide ListAt, PlacedAt, LinksAt, Walk, Split, PathText, Abstract;
    var p := f.path[e];
    TextSplits(p);
    var names := Names(Split(PathText(p)));
    FsRuns.NamesGoDown([], names);
    assert [] + names == names && [] + p == p;
    WalkRefines(f, f.root, names);
    AbstractHas(f, e);
    FsRuns.TreeIsClosed(f);
    if |p| < MAX_PARTS { FsRuns.KeysAreReached(Abstract(f), [], p); }
  }
}
