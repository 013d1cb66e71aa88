/** The tmpfs tree as a value: its entries, its child lists, and the path each entry has. */
module FsTree {
  import opened Base
  import opened TmpfsEntry

  type Path = seq<string>

  /** The fields of one entry. */
  datatype Node = Node(name: string, isDir: bool, nlink: nat, parent: Entry?, child: Entry?, next: Entry?, content: Bytes)

  /** All entries, with the lists their links spell out and the path from the root to each. */
  datatype Fs = Fs(nodes: map<Entry, Node>, kids: map<Entry, seq<Entry>>, path: map<Entry, Path>, root: Entry)

  datatype Kind = Directory | File(content: Bytes)

  function KindOf(n: Node): Kind {
    if n.isDir then Directory else File(n.content)
  }

  function Head(s: seq<Entry>): Entry? { if s == [] then null else s[0] }

  ghost predicate Distinct(s: seq<Entry>) {
    forall i, j :: 0 <= i < j < |s| ==> s[i] != s[j]
  }

  // ---- The invariant ----

  ghost predicate Shaped(f: Fs) {
    && f.nodes.Keys == f.kids.Keys == f.path.Keys
    && f.root in f.nodes && f.nodes[f.root].parent == null && f.nodes[f.root].isDir && f.path[f.root] == []
  }

  /** The links of `e` and of its children are exactly the list `kids[e]`; files have none. */
  ghost predicate ListAt(f: Fs, e: Entry)
    requires Shaped(f) && e in f.nodes
  {
    var s := f.kids[e];
    && Distinct(s) && f.nodes[e].child == Head(s) && (!f.nodes[e].isDir ==> s == [])
    && forall i :: 0 <= i < |s| ==> (
      s[i] in f.nodes && f.nodes[s[i]].parent == e && f.nodes[s[i]].next == Head(s[i + 1..]))
  }

  /** Every entry but the root is on its parent's list, one name further from the root. */
  ghost predicate PlacedAt(f: Fs, e: Entry)
    requires Shaped(f) && e in f.nodes
  {
    e == f.root || (
      var p := f.nodes[e].parent;
      p != null && p in f.nodes && e in f.kids[p] && f.path[e] == f.path[p] + [f.nodes[e].name])
  }

  /** A directory has two links and one for each child. */
  ghost predicate LinksAt(f: Fs, e: Entry)
    requires Shaped(f) && e in f.nodes
  {
    f.nodes[e].nlink == if f.nodes[e].isDir then 2 + |f.kids[e]| else 1
  }

  /** The tree invariant, but for the names. */
  ghost predicate WellFormed(f: Fs) {
    Shaped(f) && forall e :: e in f.nodes ==> ListAt(f, e) && PlacedAt(f, e) && LinksAt(f, e)
  }

  /** No two entries have the same path. */
  ghost predicate Unique(f: Fs)
    requires Shaped(f)
  {
    forall d, e :: d in f.nodes && e in f.nodes && f.path[d] == f.path[e] ==> d == e
  }

  /** The file system the tree stands for. */
  ghost function Abstract(f: Fs): (m: map<Path, Kind>)
    requires Shaped(f) && Unique(f)
  {
    map e | e in f.nodes :: f.path[e] := KindOf(f.nodes[e])
  }

  lemma AbstractHas(f: Fs, e: Entry)
    requires Shaped(f) && Unique(f) && e in f.nodes
    ensures f.path[e] in Abstract(f) && Abstract(f)[f.path[e]] == KindOf(f.nodes[e])
  {
  }

  lemma AbstractFrom(f: Fs, p: Path) returns (e: Entry)
    requires Shaped(f) && Unique(f) && p in Abstract(f)
    ensures e in f.nodes && f.path[e] == p && Abstract(f)[p] == KindOf(f.nodes[e])
  {
    e :| e in f.nodes && f.path[e] == p;
  }

  /** Siblings have different names. */
  lemma SiblingNamesDiffer(f: Fs, e: Entry, i: nat, j: nat)
    requires WellFormed(f) && Unique(f) && e in f.nodes && i < j < |f.kids[e]|
    ensures f.nodes[f.kids[e][i]].name != f.nodes[f.kids[e][j]].name
  {
    var c, d := f.kids[e][i], f.kids[e][j];
    assert ListAt(f, e) && PlacedAt(f, c) && PlacedAt(f, d);
  }

  /** The parent of a path that exists exists, and is a directory. */
  lemma ParentExists(f: Fs, e: Entry)
    requires WellFormed(f) && e in f.nodes && e != f.root
    ensures var p := f.nodes[e].parent; p in f.nodes && f.nodes[p].isDir && f.path[p] == f.path[e][..|f.path[e]| - 1]
  {
    assert PlacedAt(f, e);
    var p := f.nodes[e].parent;
    assert ListAt(f, p);
  }

  // ---- Lookup ----

  /** The first entry of a list that has the name. */
  function NamedIn(f: Fs, s: seq<Entry>, name: string): (r: Option<Entry>)
    ensures r.Some? ==> r.value in s && r.value in f.nodes && f.nodes[r.value].name == name
    ensures r == None ==> forall e <- s :: e in f.nodes ==> f.nodes[e].name != name
  {
    if s == [] then None
    else if s[0] in f.nodes && f.nodes[s[0]].name == name then Some(s[0])
    else NamedIn(f, s[1..], name)
  }

  /** ktmpfs_lookup, as far as the entry it finds. */
  function LookupIn(f: Fs, e: Entry, name: string): Option<Entry> {
    if e !in f.nodes || e !in f.kids || !f.nodes[e].isDir then None
    else if name == "." then Some(e)
    else if name == ".." then Some(if f.nodes[e].parent == null then e else f.nodes[e].parent)
    else NamedIn(f, f.kids[e], name)
  }

  lemma LookupStays(f: Fs, e: Entry, name: string)
    requires WellFormed(f) && e in f.nodes
    ensures LookupIn(f, e, name).Some? ==> LookupIn(f, e, name).value in f.nodes
  {
    assert ListAt(f, e) && PlacedAt(f, e);
  }

  /** Step by step along the tokens of a path. */
  function Walk(f: Fs, e: Entry, ts: seq<string>): (r: Option<Entry>)
    requires WellFormed(f) && e in f.nodes
    ensures r.Some? ==> r.value in f.nodes
  {
    if ts == [] then Some(e)
    else
      LookupStays(f, e, ts[0]);
      match LookupIn(f, e, ts[0])
      case None => None
      case Some(c) => Walk(f, c, ts[1..])
  }

  // ---- The same on paths ----

  /** "." stays, ".." goes up (the root stays), a name goes down. */
  function Normal1(p: Path, t: string): Path {
    if t == "." then p else if t == ".." then (if p == [] then [] else p[..|p| - 1]) else p + [t]
  }

  function Normal(p: Path, ts: seq<string>): Path
    decreases ts
  {
    if ts == [] then p else Normal(Normal1(p, ts[0]), ts[1..])
  }

  /** Every prefix walked is an existing directory, and the end exists. */
  predicate Passable(m: map<Path, Kind>, p: Path, ts: seq<string>)
    decreases ts
  {
    p in m && (ts == [] || (m[p] == Directory && Passable(m, Normal1(p, ts[0]), ts[1..])))
  }

  /** The child with a name is the entry at the path one name longer. */
  lemma ChildIsNext(f: Fs, e: Entry, name: string)
    requires WellFormed(f) && Unique(f) && e in f.nodes
    ensures match NamedIn(f, f.kids[e], name)
      case Some(c) => c in f.nodes && f.path[c] == f.path[e] + [name]
      case None => f.path[e] + [name] !in Abstract(f)
  {
    assert ListAt(f, e);
    match NamedIn(f, f.kids[e], name) {
      case Some(c) => assert PlacedAt(f, c);
      case None => NoChildNoPath(f, e, name);
    }
  }

  lemma NoChildNoPath(f: Fs, e: Entry, name: string)
    requires WellFormed(f) && Unique(f) && e in f.nodes && ListAt(f, e) && NamedIn(f, f.kids[e], name) == None
    ensures f.path[e] + [name] !in Abstract(f)
  {
    PathIsFree(f, e, name);
    if f.path[e] + [name] in Abstract(f) { var d := AbstractFrom(f, f.path[e] + [name]); }
  }

  lemma PathIsFree(f: Fs, e: Entry, name: string)
    requires WellFormed(f) && Unique(f) && e in f.nodes && ListAt(f, e) && NamedIn(f, f.kids[e], name) == None
    ensures forall d :: d in f.nodes ==> f.path[d] != f.path[e] + [name]
  {
    forall d | d in f.nodes ensures f.path[d] != f.path[e] + [name] {
      if d != f.root {
        ParentExists(f, d);
        assert PlacedAt(f, d);
        SnocInjective(f.path[f.nodes[d].parent], f.nodes[d].name, f.path[e], name);
      }
    }
  }

  lemma SnocInjective(p: Path, a: string, q: Path, b: string)
    ensures p + [a] == q + [b] ==> p == q && a == b
  {
    assert (p + [a])[..|p|] == p && (p + [a])[|p|] == a && (q + [b])[..|q|] == q && (q + [b])[|q|] == b;
  }

  lemma DotDotIsUp(f: Fs, e: Entry)
    requires WellFormed(f) && e in f.nodes
    ensures var n := f.nodes[e]; var up := if n.parent == null then e else n.parent;
      up in f.nodes && f.path[up] == Normal1(f.path[e], "..")
  {
    if e != f.root {
      ParentExists(f, e);
      assert PlacedAt(f, e);
    }
  }

  lemma LookupFinds(f: Fs, e: Entry, t: string)
    requires WellFormed(f) && Unique(f) && e in f.nodes
    ensures LookupIn(f, e, t).Some? ==> (
      f.nodes[e].isDir && LookupIn(f, e, t).value in f.nodes && f.path[LookupIn(f, e, t).value] == Normal1(f.path[e], t))
  {
    hide Unique, Abstract, NamedIn, ListAt, PlacedAt, LinksAt;
    ChildIsNext(f, e, t);
    DotDotIsUp(f, e);
  }

  lemma LookupMisses(f: Fs, e: Entry, t: string)
    requires WellFormed(f) && Unique(f) && e in f.nodes
    ensures LookupIn(f, e, t) == None ==> !f.nodes[e].isDir || Normal1(f.path[e], t) !in Abstract(f)
  {
    hide Unique, Abstract, NamedIn, ListAt, PlacedAt, LinksAt;
    ChildIsNext(f, e, t);
  }

  /**
   * kvfs_resolve_from finds exactly the entry at the normalised path, and finds it exactly when every prefix walked is
   * an existing directory.
   */
  lemma {:induction false} WalkRefines(f: Fs, e: Entry, ts: seq<string>)
    requires WellFormed(f) && Unique(f) && e in f.nodes
    ensures Walk(f, e, ts).Some? <==> Passable(Abstract(f), f.path[e], ts)
    ensures Walk(f, e, ts).Some? ==> f.path[Walk(f, e, ts).value] == Normal(f.path[e], ts)
    decreases ts
  {
    hide LookupIn, Normal1, Abstract, Unique, NamedIn, ListAt, PlacedAt, LinksAt;
    AbstractHas(f, e);
    if ts != [] {
      LookupFinds(f, e, ts[0]);
      LookupMisses(f, e, ts[0]);
      match LookupIn(f, e, ts[0]) {
        case None =>
        case Some(c) => WalkRefines(f, c, ts[1..]);
      }
    }
  }
}
