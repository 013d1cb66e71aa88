/** What creating, removing and writing an entry do to the tree and to the file system it stands for. */
module FsEdits {
  import opened Base
  import opened TmpfsEntry
  import opened FsTree

  // ---- Creation ----

  /** `e` becomes the first child of `p`, which gains a link. */
  function WithChild(f: Fs, p: Entry, e: Entry, name: string, isDir: bool): (g: Fs)
    requires p in f.nodes && p in f.kids && p in f.path
  {
    var n := f.nodes[p];
    Fs(f.nodes[p := Node(n.name, n.isDir, n.nlink + 1, n.parent, e, n.next, n.content)]
              [e := Node(name, isDir, if isDir then 2 else 1, p, null, n.child, [])],
       f.kids[p := [e] + f.kids[p]][e := []],
       f.path[e := f.path[p] + [name]],
       f.root)
  }

  ghost predicate Addable(f: Fs, p: Entry, e: Entry) {
    WellFormed(f) && p in f.nodes && f.nodes[p].isDir && e !in f.nodes
  }

  lemma AddedShape(f: Fs, p: Entry, e: Entry, name: string, isDir: bool)
    requires Addable(f, p, e)
    ensures Shaped(WithChild(f, p, e, name, isDir))
  {
    hide ListAt, PlacedAt, LinksAt;
    AddedKeys(f, p, e, name, isDir);
  }

  lemma AddedKeys(f: Fs, p: Entry, e: Entry, name: string, isDir: bool)
    requires Shaped(f) && p in f.nodes && e !in f.nodes
    ensures Shaped(WithChild(f, p, e, name, isDir)) && WithChild(f, p, e, name, isDir).nodes.Keys == f.nodes.Keys + {e}
  {
    var g := WithChild(f, p, e, name, isDir);
    assert g.nodes.Keys == f.nodes.Keys + {e};
    assert g.kids.Keys == f.kids.Keys + {e};
    assert g.path.Keys == f.path.Keys + {e};
  }

  /** A child of another entry, or an old child of `p`, keeps its links. */
  lemma OldChildKeepsLinks(f: Fs, p: Entry, e: Entry, name: string, isDir: bool, d: Entry, i: nat)
    requires Addable(f, p, e) && Shaped(WithChild(f, p, e, name, isDir)) && d in f.nodes && i < |f.kids[d]|
    ensures var g, c := WithChild(f, p, e, name, isDir), f.kids[d][i];
      c in g.nodes && c != e && g.nodes[c].parent == d && g.nodes[c].next == Head(f.kids[d][i + 1..])
  {
    hide PlacedAt, LinksAt, Distinct;
    assert ListAt(f, d);
  }

  lemma AddedListElsewhere(f: Fs, p: Entry, e: Entry, name: string, isDir: bool, d: Entry)
    requires Addable(f, p, e) && Shaped(WithChild(f, p, e, name, isDir)) && d in f.nodes && d != p
    ensures d in WithChild(f, p, e, name, isDir).nodes && ListAt(WithChild(f, p, e, name, isDir), d)
  {
    hide PlacedAt, LinksAt, Distinct, Head;
    var g, s := WithChild(f, p, e, name, isDir), f.kids[d];
    assert ListAt(f, d);
    assert d in g.nodes && g.kids[d] == s && g.nodes[d] == f.nodes[d];
    forall i | 0 <= i < |s| ensures s[i] in g.nodes && g.nodes[s[i]].parent == d && g.nodes[s[i]].next == Head(s[i + 1..]) {
      OldChildKeepsLinks(f, p, e, name, isDir, d, i);
    }
  }

  ghost predicate OldLinks(f: Fs, g: Fs, d: Entry, i: nat)
    requires d in f.kids && i < |f.kids[d]|
  {
    var c := f.kids[d][i];
    c in g.nodes && g.nodes[c].parent == d && g.nodes[c].next == Head(f.kids[d][i + 1..])
  }

  lemma ConsDistinct(e: Entry, s: seq<Entry>)
    requires Distinct(s) && e !in s
    ensures Distinct([e] + s) && ([e] + s)[1..] == s
    ensures forall i :: 0 < i < |s| + 1 ==> ([e] + s)[i] == s[i - 1] && ([e] + s)[i + 1..] == s[i..]
  {
  }

  lemma AddedListAtParent(f: Fs, p: Entry, e: Entry, name: string, isDir: bool)
    requires Addable(f, p, e) && Shaped(WithChild(f, p, e, name, isDir))
    ensures ListAt(WithChild(f, p, e, name, isDir), p)
  {
    var g, s := WithChild(f, p, e, name, isDir), f.kids[p];
    assert ListAt(f, p);
    ConsDistinct(e, s);
    forall i | 0 <= i < |s| ensures OldLinks(f, g, p, i) { OldChildKeepsLinks(f, p, e, name, isDir, p, i); }
    hide PlacedAt, LinksAt, Distinct;
    var t := g.kids[p];
    assert t == [e] + s;
    forall i | 0 <= i < |t| ensures t[i] in g.nodes && g.nodes[t[i]].parent == p && g.nodes[t[i]].next == Head(t[i + 1..]) {
      if i > 0 { assert OldLinks(f, g, p, i - 1); }
    }
  }

  lemma AddedList(f: Fs, p: Entry, e: Entry, name: string, isDir: bool, d: Entry)
    requires Addable(f, p, e) && Shaped(WithChild(f, p, e, name, isDir)) && d in WithChild(f, p, e, name, isDir).nodes
    ensures ListAt(WithChild(f, p, e, name, isDir), d)
  {
    if d == p {
      AddedListAtParent(f, p, e, name, isDir);
    } else if d != e {
      AddedListElsewhere(f, p, e, name, isDir, d);
    }
  }

  lemma AddedPlaces(f: Fs, p: Entry, e: Entry, name: string, isDir: bool, d: Entry)
    requires Addable(f, p, e) && Shaped(WithChild(f, p, e, name, isDir)) && d in WithChild(f, p, e, name, isDir).nodes
    ensures PlacedAt(WithChild(f, p, e, name, isDir), d) && LinksAt(WithChild(f, p, e, name, isDir), d)
  {
    hide Distinct, Head;
    var g := WithChild(f, p, e, name, isDir);
    if d != e {
      assert PlacedAt(f, d) && LinksAt(f, d) && ListAt(f, d);
      OldPlaceKept(f, p, e, name, isDir, d);
    } else {
      assert e in g.kids[p];
    }
  }

  lemma OldPlaceKept(f: Fs, p: Entry, e: Entry, name: string, isDir: bool, d: Entry)
    requires Shaped(f) && p in f.nodes && e !in f.nodes && Shaped(WithChild(f, p, e, name, isDir)) && d in f.nodes
    requires PlacedAt(f, d) && LinksAt(f, d) && f.nodes[p].isDir
    requires d in WithChild(f, p, e, name, isDir).nodes
    ensures PlacedAt(WithChild(f, p, e, name, isDir), d) && LinksAt(WithChild(f, p, e, name, isDir), d)
  {
    var g := WithChild(f, p, e, name, isDir);
    if d != f.root {
      var q := f.nodes[d].parent;
      assert q in g.nodes && g.path[q] == f.path[q] && (forall c <- f.kids[q] :: c in g.kids[q]);
    }
  }

  /** Creating an entry keeps the tree a tree. */
  lemma AddedKeepsTree(f: Fs, p: Entry, e: Entry, name: string, isDir: bool)
    requires Addable(f, p, e)
    ensures WellFormed(WithChild(f, p, e, name, isDir))
  {
    AddedShape(f, p, e, name, isDir);
    var g := WithChild(f, p, e, name, isDir);
    forall d | d in g.nodes ensures ListAt(g, d) && PlacedAt(g, d) && LinksAt(g, d) {
      AddedList(f, p, e, name, isDir, d);
      AddedPlaces(f, p, e, name, isDir, d);
    }
  }

  /** A map that gives every entry's path its kind, and has no other key, is the file system. */
  lemma AbstractIs(g: Fs, m: map<Path, Kind>)
    requires Shaped(g) && Unique(g)
    requires forall e :: e in g.nodes ==> g.path[e] in m && m[g.path[e]] == KindOf(g.nodes[e])
    requires forall p :: p in m ==> exists e :: e in g.nodes && g.path[e] == p
    ensures Abstract(g) == m
  {
  }

  /** The other entries keep their paths and kinds. */
  ghost predicate AddsOnly(f: Fs, g: Fs, e: Entry, path: Path, kind: Kind)
    requires Shaped(f) && Shaped(g)
  {
    && g.nodes.Keys == f.nodes.Keys + {e} && g.path[e] == path && KindOf(g.nodes[e]) == kind
    && forall d :: d in f.nodes ==> d != e && g.path[d] == f.path[d] && KindOf(g.nodes[d]) == KindOf(f.nodes[d])
  }

  lemma AddedFacts(f: Fs, p: Entry, e: Entry, name: string, isDir: bool)
    requires Addable(f, p, e)
    ensures Shaped(WithChild(f, p, e, name, isDir))
    ensures AddsOnly(f, WithChild(f, p, e, name, isDir), e, f.path[p] + [name], if isDir then Directory else File([]))
  {
    hide ListAt, PlacedAt, LinksAt, AddsOnly;
    AddedKeys(f, p, e, name, isDir);
    AddedKinds(f, p, e, name, isDir);
  }

  lemma AddedKinds(f: Fs, p: Entry, e: Entry, name: string, isDir: bool)
    requires Shaped(f) && p in f.nodes && f.nodes[p].isDir && e !in f.nodes && Shaped(WithChild(f, p, e, name, isDir))
    requires WithChild(f, p, e, name, isDir).nodes.Keys == f.nodes.Keys + {e}
    ensures AddsOnly(f, WithChild(f, p, e, name, isDir), e, f.path[p] + [name], if isDir then Directory else File([]))
  {
    var g := WithChild(f, p, e, name, isDir);
    forall d | d in f.nodes ensures d != e && g.path[d] == f.path[d] && KindOf(g.nodes[d]) == KindOf(f.nodes[d]) {
      assert d == p || g.nodes[d] == f.nodes[d];
    }
  }

  lemma FreshPathIsUnique(f: Fs, g: Fs, e: Entry, path: Path, kind: Kind)
    requires Shaped(f) && Shaped(g) && Unique(f) && AddsOnly(f, g, e, path, kind) && path !in Abstract(f)
    ensures Unique(g)
  {
    hide Abstract;
    forall d | d in f.nodes ensures f.path[d] != path {
      AbstractHas(f, d);
    }
  }

  lemma OneMoreKey(f: Fs, g: Fs, e: Entry, path: Path, kind: Kind)
    requires Shaped(f) && Shaped(g) && Unique(f) && Unique(g) && AddsOnly(f, g, e, path, kind) && path !in Abstract(f)
    ensures Abstract(g) == Abstract(f)[path := kind]
  {
    hide Abstract, Unique, KindOf;
    var m := Abstract(f)[path := kind];
    forall q | q in m ensures exists d :: d in g.nodes && g.path[d] == q {
      var d := e;
      if q != path { d := AbstractFrom(f, q); }
      assert g.path[d] == q;
    }
    forall d | d in g.nodes ensures g.path[d] in m && m[g.path[d]] == KindOf(g.nodes[d]) {
      if d != e { AbstractHas(f, d); }
    }
    AbstractIs(g, m);
  }

  /** Creating an entry under a free name adds exactly one key. */
  lemma AddedIsOneKey(f: Fs, p: Entry, e: Entry, name: string, isDir: bool)
    requires Addable(f, p, e) && Unique(f) && f.path[p] + [name] !in Abstract(f)
    ensures Shaped(WithChild(f, p, e, name, isDir)) && Unique(WithChild(f, p, e, name, isDir))
    ensures Abstract(WithChild(f, p, e, name, isDir)) == Abstract(f)[f.path[p] + [name] := if isDir then Directory else File([])]
  {
    hide WithChild, Abstract, Unique, AddsOnly;
    var kind := if isDir then Directory else File([]);
    AddedFacts(f, p, e, name, isDir);
    FreshPathIsUnique(f, WithChild(f, p, e, name, isDir), e, f.path[p] + [name], kind);
    OneMoreKey(f, WithChild(f, p, e, name, isDir), e, f.path[p] + [name], kind);
  }

  // ---- Removal ----

  function IndexOf(s: seq<Entry>, e: Entry): (i: nat)
    requires e in s
    ensures i < |s| && s[i] == e && e !in s[..i]
  {
    if s[0] == e then 0 else 1 + IndexOf(s[1..], e)
  }

  function Minus(s: seq<Entry>, i: nat): seq<Entry>
    requires i < |s|
  {
    s[..i] + s[i + 1..]
  }

  /** What taking the i-th child off `p`'s list leaves at `d`: only `p` and the child before it change. */
  function NodeWithout(f: Fs, p: Entry, i: nat, d: Entry): Node
    requires d in f.nodes && p in f.nodes && p in f.kids && i < |f.kids[p]| && f.kids[p][i] in f.nodes
  {
    var n, after := f.nodes[d], f.nodes[f.kids[p][i]].next;
    Node(n.name, n.isDir, if d == p && n.nlink > 0 then n.nlink - 1 else n.nlink, n.parent,
         if i == 0 && d == p then after else n.child, if i > 0 && d == f.kids[p][i - 1] then after else n.next, n.content)
  }

  /** `e`, the i-th child of `p`, is taken off its list and freed; `p` loses a link. */
  function Without(f: Fs, p: Entry, i: nat): (g: Fs)
    requires p in f.nodes && p in f.kids && i < |f.kids[p]| && f.kids[p][i] in f.nodes
  {
    var e := f.kids[p][i];
    Fs(map d | d in f.nodes && d != e :: NodeWithout(f, p, i, d), f.kids[p := Minus(f.kids[p], i)] - {e}, f.path - {e}, f.root)
  }

  ghost predicate Removable(f: Fs, p: Entry, i: nat) {
    && WellFormed(f) && p in f.nodes && i < |f.kids[p]|
    && var e := f.kids[p][i]; e in f.nodes && e != p && e != f.root && f.kids[e] == []
  }

  /** A child without children can be removed. */
  lemma LeafIsRemovable(f: Fs, e: Entry)
    requires WellFormed(f) && e in f.nodes && e != f.root && f.kids[e] == []
    ensures var p := f.nodes[e].parent; p in f.nodes && e in f.kids[p] && Removable(f, p, IndexOf(f.kids[p], e))
  {
    assert PlacedAt(f, e);
  }

  lemma RemovedShape(f: Fs, p: Entry, i: nat)
    requires Removable(f, p, i)
    ensures Shaped(Without(f, p, i)) && Without(f, p, i).nodes.Keys == f.nodes.Keys - {f.kids[p][i]}
  {
    hide ListAt, PlacedAt, LinksAt;
    RemovedKeys(f, p, i);
  }

  lemma RemovedKeys(f: Fs, p: Entry, i: nat)
    requires Shaped(f) && p in f.nodes && i < |f.kids[p]| && f.kids[p][i] in f.nodes && f.kids[p][i] != f.root
    ensures Shaped(Without(f, p, i)) && Without(f, p, i).nodes.Keys == f.nodes.Keys - {f.kids[p][i]}
  {
    hide Minus;
    var g, e := Without(f, p, i), f.kids[p][i];
    assert g.nodes.Keys == f.nodes.Keys - {e};
    assert g.kids.Keys == f.kids.Keys - {e};
    assert g.path.Keys == f.path.Keys - {e};
  }

  lemma HeadAfter(s: seq<Entry>, i: nat, j: nat)
    requires i < |s| && j < |s| && j != i
    ensures var t := Minus(s, i); var k := if j < i then j else j - 1;
      k < |t| && t[k] == s[j] && Head(t[k + 1..]) == if i > 0 && j == i - 1 then Head(s[i + 1..]) else Head(s[j + 1..])
  {
    var t := Minus(s, i);
    var k := if j < i then j else j - 1;
    assert k + 1 < |t| ==> t[k + 1..][0] == t[k + 1];
    assert j + 1 < |s| ==> s[j + 1..][0] == s[j + 1];
    assert i + 1 < |s| ==> s[i + 1..][0] == s[i + 1];
  }

  lemma MinusIsDistinct(s: seq<Entry>, i: nat)
    requires i < |s| && Distinct(s)
    ensures Distinct(Minus(s, i)) && s[i] !in Minus(s, i) && forall c <- Minus(s, i) :: c in s
  {
  }

  lemma RemovedNext(f: Fs, p: Entry, i: nat, j: nat)
    requires Removable(f, p, i) && Shaped(Without(f, p, i)) && j < |f.kids[p]| && j != i && ListAt(f, p)
    ensures var g, t, k := Without(f, p, i), Minus(f.kids[p], i), if j < i then j else j - 1;
      k < |t| && t[k] in g.nodes && g.nodes[t[k]].parent == p && g.nodes[t[k]].next == Head(t[k + 1..])
  {
    HeadAfter(f.kids[p], i, j);
    hide Minus, Head;
  }

  lemma RemovedHead(f: Fs, p: Entry, i: nat)
    requires Removable(f, p, i) && Shaped(Without(f, p, i)) && ListAt(f, p)
    ensures var g := Without(f, p, i);
      p in g.nodes && g.kids[p] == Minus(f.kids[p], i) && g.nodes[p].child == Head(g.kids[p]) && g.nodes[p].isDir
  {
    hide Distinct;
    var s := f.kids[p];
    assert Head(Minus(s, i)) == if i == 0 then Head(s[1..]) else Head(s);
  }

  lemma RemovedListAtParent(f: Fs, p: Entry, i: nat)
    requires Removable(f, p, i) && Shaped(Without(f, p, i))
    ensures ListAt(Without(f, p, i), p)
  {
    hide Without, Minus, Distinct, Head;
    var g, s := Without(f, p, i), f.kids[p];
    assert ListAt(f, p);
    RemovedHead(f, p, i);
    MinusIsDistinct(s, i);
    var t := Minus(s, i);
    assert |t| == |s| - 1 by { MinusLength(s, i); }
    forall k | 0 <= k < |t| ensures t[k] in g.nodes && g.nodes[t[k]].parent == p && g.nodes[t[k]].next == Head(t[k + 1..]) {
      RemovedNext(f, p, i, if k < i then k else k + 1);
    }
  }

  lemma MinusLength(s: seq<Entry>, i: nat)
    requires i < |s|
    ensures |Minus(s, i)| == |s| - 1
  {
  }

  lemma RemovedListElsewhere(f: Fs, p: Entry, i: nat, d: Entry)
    requires Removable(f, p, i) && Shaped(Without(f, p, i)) && d in Without(f, p, i).nodes && d != p
    ensures ListAt(Without(f, p, i), d)
  {
    var g := Without(f, p, i);
    assert ListAt(f, d) && ListAt(f, p);
    forall c | c in f.kids[d] ensures c in g.nodes && c !in f.kids[p] && g.nodes[c].next == f.nodes[c].next {
      assert f.nodes[c].parent == d;
    }
  }

  lemma StillThere(s: seq<Entry>, i: nat, d: Entry)
    requires i < |s| && d in s && d != s[i]
    ensures d in Minus(s, i)
  {
    var j :| 0 <= j < |s| && s[j] == d;
    HeadAfter(s, i, j);
  }

  lemma RemovedPlaces(f: Fs, p: Entry, i: nat, d: Entry)
    requires Removable(f, p, i) && Shaped(Without(f, p, i)) && d in Without(f, p, i).nodes
    ensures PlacedAt(Without(f, p, i), d)
  {
    hide LinksAt, ListAt, Minus;
    assert PlacedAt(f, d);
    if d != f.root {
      var q := f.nodes[d].parent;
      ParentExists(f, d);
      NotTheRemoved(f, p, i, q);
      if q == p { StillThere(f.kids[p], i, d); }
    }
  }

  /** The removed entry is nobody's parent. */
  lemma NotTheRemoved(f: Fs, p: Entry, i: nat, q: Entry)
    requires Removable(f, p, i)
    ensures q in f.nodes && f.kids[q] != [] ==> q != f.kids[p][i]
  {
  }

  lemma RemovedLinks(f: Fs, p: Entry, i: nat, d: Entry)
    requires Removable(f, p, i) && Shaped(Without(f, p, i)) && d in Without(f, p, i).nodes
    ensures LinksAt(Without(f, p, i), d)
  {
    hide PlacedAt;
    assert LinksAt(f, d) && ListAt(f, p);
    MinusLength(f.kids[p], i);
  }

  /** Removing a leaf keeps the tree a tree. */
  lemma RemovedKeepsTree(f: Fs, p: Entry, i: nat)
    requires Removable(f, p, i)
    ensures WellFormed(Without(f, p, i))
  {
    RemovedShape(f, p, i);
    var g := Without(f, p, i);
    hide ListAt, PlacedAt, LinksAt, Removable, Without, NodeWithout;
    RemovedListAtParent(f, p, i);
    forall d | d in g.nodes ensures ListAt(g, d) && PlacedAt(g, d) && LinksAt(g, d) {
      if d != p { RemovedListElsewhere(f, p, i, d); }
      RemovedPlaces(f, p, i, d);
      RemovedLinks(f, p, i, d);
    }
  }

  /** Removing an entry removes exactly its key. */
  lemma RemovedIsOneKey(f: Fs, p: Entry, i: nat)
    requires Removable(f, p, i) && Unique(f)
    ensures Shaped(Without(f, p, i)) && Unique(Without(f, p, i))
    ensures f.path[f.kids[p][i]] in Abstract(f)
    ensures Abstract(Without(f, p, i)) == Abstract(f) - {f.path[f.kids[p][i]]}
  {
    RemovedShape(f, p, i);
    AbstractHas(f, f.kids[p][i]);
    RemovedKinds(f, p, i);
    hide Abstract, Removable, Without, KindOf;
    OneKeyLess(f, Without(f, p, i), f.kids[p][i]);
  }

  lemma RemovedKinds(f: Fs, p: Entry, i: nat)
    requires Removable(f, p, i) && Shaped(Without(f, p, i))
    ensures DropsOnly(f, Without(f, p, i), f.kids[p][i])
  {
  }

  ghost predicate DropsOnly(f: Fs, g: Fs, e: Entry)
    requires Shaped(f) && Shaped(g)
  {
    && g.nodes.Keys == f.nodes.Keys - {e} && e in f.nodes
    && forall d :: d in g.nodes ==> g.path[d] == f.path[d] && KindOf(g.nodes[d]) == KindOf(f.nodes[d])
  }

  lemma OneKeyLess(f: Fs, g: Fs, e: Entry)
    requires Shaped(f) && Shaped(g) && Unique(f) && DropsOnly(f, g, e)
    ensures Unique(g) && Abstract(g) == Abstract(f) - {f.path[e]}
  {
    hide Abstract, KindOf;
    var m := Abstract(f) - {f.path[e]};
    forall q | q in m ensures exists d :: d in g.nodes && g.path[d] == q {
      var d := AbstractFrom(f, q);
      assert g.path[d] == q;
    }
    forall d | d in g.nodes ensures g.path[d] in m && m[g.path[d]] == KindOf(g.nodes[d]) {
      AbstractHas(f, d);
    }
    AbstractIs(g, m);
  }

  lemma AncestorAt(f: Fs, d: Entry, k: nat) returns (a: Entry)
    requires WellFormed(f) && d in f.nodes && k <= |f.path[d]|
    ensures a in f.nodes && f.path[a] == f.path[d][..k] && (k < |f.path[d]| ==> f.kids[a] != [])
    decreases |f.path[d]|
  {
    hide ListAt, PlacedAt, LinksAt;
    a := d;
    if k < |f.path[d]| {
      ParentAbove(f, d);
      a := f.nodes[d].parent;
      if k < |f.path[a]| { a := AncestorAt(f, a, k); }
    }
  }

  lemma ParentAbove(f: Fs, d: Entry)
    requires WellFormed(f) && d in f.nodes && f.path[d] != []
    ensures Shaped(f) && f.nodes[d].parent != null && f.nodes[d].parent in f.nodes
    ensures f.path[f.nodes[d].parent] == f.path[d][..|f.path[d]| - 1] && f.kids[f.nodes[d].parent] != []
  {
    hide ListAt, LinksAt;
    ParentExists(f, d);
    assert PlacedAt(f, d);
  }

  /** No key extends the path of a file or of an empty directory. */
  lemma NothingBelow(f: Fs, e: Entry)
    requires WellFormed(f) && Unique(f) && e in f.nodes && f.kids[e] == []
    ensures forall q :: q in Abstract(f) ==> !(f.path[e] < q)
  {
    hide Abstract;
    forall q | q in Abstract(f) ensures !(f.path[e] < q) {
      var d := AbstractFrom(f, q);
      if f.path[e] < q { var a := AncestorAt(f, d, |f.path[e]|); }
    }
  }

  // ---- Contents ----

  /** The bytes of `e` change, nothing else. */
  function WithContent(f: Fs, e: Entry, content: Bytes): Fs
    requires e in f.nodes
  {
    var n := f.nodes[e];
    Fs(f.nodes[e := Node(n.name, n.isDir, n.nlink, n.parent, n.child, n.next, content)], f.kids, f.path, f.root)
  }

  lemma RewrittenKeepsTree(f: Fs, e: Entry, content: Bytes)
    requires WellFormed(f) && e in f.nodes
    ensures WellFormed(WithContent(f, e, content))
  {
    var g := WithContent(f, e, content);
    forall d | d in g.nodes ensures ListAt(g, d) && PlacedAt(g, d) && LinksAt(g, d) {
      assert ListAt(f, d) && PlacedAt(f, d) && LinksAt(f, d);
    }
  }

  /** Writing a file changes the bytes at its key only. */
  lemma RewrittenIsOneKey(f: Fs, e: Entry, content: Bytes)
    requires Shaped(f) && Unique(f) && e in f.nodes && !f.nodes[e].isDir
    ensures Shaped(WithContent(f, e, content)) && Unique(WithContent(f, e, content))
    ensures Abstract(WithContent(f, e, content)) == Abstract(f)[f.path[e] := File(content)]
  {
    var g := WithContent(f, e, content);
    assert g.nodes.Keys == f.nodes.Keys && KindOf(g.nodes[e]) == File(content);
    assert forall d :: d in f.nodes ==> d == e || KindOf(g.nodes[d]) == KindOf(f.nodes[d]);
    OneKeyChanged(f, g, e, File(content));
  }

  lemma OneKeyChanged(f: Fs, g: Fs, e: Entry, kind: Kind)
    requires Shaped(f) && Shaped(g) && Unique(f) && e in f.nodes && g.nodes.Keys == f.nodes.Keys && g.path == f.path
    requires KindOf(g.nodes[e]) == kind && forall d :: d in f.nodes ==> d == e || KindOf(g.nodes[d]) == KindOf(f.nodes[d])
    ensures Unique(g) && Abstract(g) == Abstract(f)[f.path[e] := kind]
  {
    hide Abstract, KindOf;
    var m := Abstract(f)[f.path[e] := kind];
    forall q | q in m ensures exists d :: d in g.nodes && g.path[d] == q {
      var d := e;
      if q != f.path[e] { d := AbstractFrom(f, q); }
      assert g.path[d] == q;
    }
    forall d | d in g.nodes ensures g.path[d] in m && m[g.path[d]] == KindOf(g.nodes[d]) {
      AbstractHas(f, d);
    }
    AbstractIs(g, m);
  }

  // ---- Removal, named by the entry ----

  /** `e` is gone, and with it its place on its parent's list. */
  function Removed(f: Fs, e: Entry): Fs
    requires CanGo(f, e)
  {
    LeafIsRemovable(f, e);
    Without(f, f.nodes[e].parent, IndexOf(f.kids[f.nodes[e].parent], e))
  }

  ghost predicate CanGo(f: Fs, e: Entry) {
    WellFormed(f) && e in f.nodes && e != f.root && f.kids[e] == []
  }

  /** Removing a file or an empty directory removes one key, which no other key extends, and leaves a tree. */
  lemma RemovedMeaning(f: Fs, e: Entry)
    requires CanGo(f, e) && Unique(f)
    ensures WellFormed(Removed(f, e)) && Unique(Removed(f, e)) && Removed(f, e).root == f.root
    ensures Removed(f, e).nodes.Keys == f.nodes.Keys - {e}
    ensures f.path[e] in Abstract(f) && Abstract(Removed(f, e)) == Abstract(f) - {f.path[e]}
    ensures forall q :: q in Abstract(f) ==> !(f.path[e] < q)
  {
    LeafIsRemovable(f, e);
    var p := f.nodes[e].parent;
    var i := IndexOf(f.kids[p], e);
    hide Abstract, Unique, ListAt, PlacedAt, LinksAt, Removable;
    RemovedKeepsTree(f, p, i);
    RemovedIsOneKey(f, p, i);
    RemovedShape(f, p, i);
    NothingBelow(f, e);
  }
}
