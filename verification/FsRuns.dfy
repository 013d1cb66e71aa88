/** The path operations over whole runs, and which of them undo each other. */
module FsRuns {
  import opened TmpfsEntry
  import opened FsTree
  import opened Paths
  import opened Vfs

  /** Every key but the root's lies in a directory that is a key as well. */
  ghost predicate Closed(m: map<Path, Kind>) {
    [] in m && m[[]] == Directory && forall p :: p in m && p != [] ==> p[..|p| - 1] in m && m[p[..|p| - 1]] == Directory
  }

  /** The tree always stands for such a file system. */
  lemma TreeIsClosed(f: Fs)
    requires WellFormed(f) && Unique(f)
    ensures Closed(Abstract(f))
  {
    hide Abstract;
    AbstractHas(f, f.root);
    forall p | p in Abstract(f) && p != [] ensures p[..|p| - 1] in Abstract(f) && Abstract(f)[p[..|p| - 1]] == Directory {
      var e := AbstractFrom(f, p);
      RootPath(f, e);
      ParentExists(f, e);
      AbstractHas(f, f.nodes[e].parent);
    }
  }

  datatype Op = Open(path: string, create: bool, directory: bool) | Rmdir(path: string) | Unlink(path: string)

  /** One operation from a working directory. */
  ghost function Step(m: map<Path, Kind>, cwd: Path, op: Op): map<Path, Kind> {
    var start := if IsAbsolute(op.path) then [] else cwd;
    var ts := Split(op.path);
    match op
    case Open(_, create, directory) => OpenedFiles(m, start, ts, create, directory)
    case Rmdir(_) => if CanRmdir(m, start, ts) then m - {FoundPath(start, ts)} else m
    case Unlink(_) => if CanUnlink(m, start, ts) then m - {FoundPath(start, ts)} else m
  }

  ghost function Run(m: map<Path, Kind>, cwd: Path, ops: seq<Op>): map<Path, Kind>
    decreases ops
  {
    if ops == [] then m else Run(Step(m, cwd, ops[0]), cwd, ops[1..])
  }

  lemma TouchedIsClosed(m: map<Path, Kind>, p: Path, name: string, directory: bool)
    requires Closed(m) && p in m
    ensures Closed(Touched(m, p, name, directory))
  {
    if m[p] == Directory && Normal1(p, name) !in m {
      assert Normal1(p, "..") in m;
      assert (p + [name])[..|p|] == p;
    }
  }

  lemma RemovedIsClosed(m: map<Path, Kind>, p: Path)
    requires Closed(m) && p in m && p != [] && forall q :: q in m ==> !(p < q)
    ensures Closed(m - {p})
  {
    forall q | q in m - {p} && q != [] ensures q[..|q| - 1] in m - {p} && (m - {p})[q[..|q| - 1]] == Directory {
      assert !(p < q);
      assert q == q[..|q| - 1] + [q[|q| - 1]];
    }
  }

  /** No key of a closed file system extends a file's. */
  lemma {:induction false} FilesAreLeaves(m: map<Path, Kind>, p: Path, q: Path)
    requires Closed(m) && p in m && m[p].File? && q in m
    ensures !(p < q)
    decreases |q|
  {
    if q != [] {
      var up := q[..|q| - 1];
      FilesAreLeaves(m, p, up);
      assert p < q ==> p == up || p < up;
    }
  }

  /** In every reachable state each key lies in an existing directory. */
  lemma {:induction false} RunsStayClosed(m: map<Path, Kind>, cwd: Path, ops: seq<Op>)
    requires Closed(m)
    ensures Closed(Run(m, cwd, ops))
    decreases ops
  {
    if ops != [] {
      var op := ops[0];
      var start, ts := if IsAbsolute(op.path) then [] else cwd, Split(op.path);
      var p := FoundPath(start, ts);
      hide Closed, Split, FoundPath, Touched;
      if op.Open? && OpenedFiles(m, start, ts, op.create, op.directory) != m {
        TouchedIsClosed(m, Normal(start, ParentNames(ts)), LastName(ts), op.directory);
      } else if op.Rmdir? && CanRmdir(m, start, ts) {
        RemovedIsClosed(m, p);
      } else if op.Unlink? && CanUnlink(m, start, ts) {
        FileIsRemovable(m, p);
        RemovedIsClosed(m, p);
      }
      RunsStayClosed(Step(m, cwd, op), cwd, ops[1..]);
    }
  }

  lemma FileIsRemovable(m: map<Path, Kind>, p: Path)
    requires Closed(m) && p in m && m[p].File?
    ensures p != [] && forall q :: q in m ==> !(p < q)
  {
    forall q | q in m ensures !(p < q) {
      FilesAreLeaves(m, p, q);
    }
  }

  // ---- Undoing ----

  lemma {:induction false} NormalOfLast(p: Path, ts: seq<string>, t: string)
    ensures Normal(p, ts + [t]) == Normal1(Normal(p, ts), t)
    decreases ts
  {
    if ts == [] {
      assert [t][1..] == [];
    } else {
      assert (ts + [t])[1..] == ts[1..] + [t];
      NormalOfLast(Normal1(p, ts[0]), ts[1..], t);
    }
  }

  lemma {:induction false} PassableToLast(m: map<Path, Kind>, p: Path, ts: seq<string>, t: string)
    ensures Passable(m, p, ts + [t]) <==>
      Passable(m, p, ts) && Normal(p, ts) in m && m[Normal(p, ts)] == Directory && Normal1(Normal(p, ts), t) in m
    decreases ts
  {
    if ts == [] {
      assert [t][1..] == [];
    } else {
      assert (ts + [t])[1..] == ts[1..] + [t];
      PassableToLast(m, Normal1(p, ts[0]), ts[1..], t);
    }
  }

  lemma {:induction false} PassableMonotone(m: map<Path, Kind>, n: map<Path, Kind>, p: Path, ts: seq<string>)
    requires Passable(m, p, ts) && forall q :: q in m ==> q in n && n[q] == m[q]
    ensures Passable(n, p, ts)
    decreases ts
  {
    if ts != [] { PassableMonotone(m, n, Normal1(p, ts[0]), ts[1..]); }
  }

  /** Opening and resolving mean the same path, but for a path that is nothing but slashes. */
  lemma TargetIsFound(start: Path, ts: seq<string>)
    requires Names(ts) != []
    ensures ts != [] && Names(ts) == ParentNames(ts) + [LastName(ts)]
    ensures TargetPath(start, ts) == FoundPath(start, ts)
  {
    assert Names(ts) == ParentNames(ts) + [LastName(ts)];
    NormalOfLast(start, ParentNames(ts), LastName(ts));
  }

  /** The open made a new key. */
  ghost predicate Makes(m: map<Path, Kind>, start: Path, ts: seq<string>) {
    && ParentFound(m, start, ts) && Normal(start, ParentNames(ts)) in m
    && m[Normal(start, ParentNames(ts))] == Directory && TargetPath(start, ts) !in m
  }

  lemma MadeKey(m: map<Path, Kind>, start: Path, ts: seq<string>, directory: bool)
    requires Makes(m, start, ts)
    ensures OpenedFiles(m, start, ts, true, directory) == m[TargetPath(start, ts) := if directory then Directory else File([])]
    ensures Names(ts) != [] ==> Passable(OpenedFiles(m, start, ts, true, directory), start, Names(ts))
  {
    if Names(ts) != [] {
      var n := OpenedFiles(m, start, ts, true, directory);
      TargetIsFound(start, ts);
      PassableMonotone(m, n, start, ParentNames(ts));
      PassableToLast(n, start, ParentNames(ts), LastName(ts));
    }
  }

  lemma NewKeyIsLeaf(m: map<Path, Kind>, p: Path)
    requires Closed(m) && p !in m
    ensures p != [] && forall q :: q in m ==> !(p < q)
  {
    forall q | q in m ensures !(p < q) {
      PrefixExists(m, p, q);
    }
  }

  lemma {:induction false} PrefixExists(m: map<Path, Kind>, p: Path, q: Path)
    requires Closed(m) && q in m
    ensures p <= q ==> p in m
    decreases |q|
  {
    if p <= q && p != q {
      PrefixExists(m, p, q[..|q| - 1]);
    }
  }

  /**
   * A directory just made can be removed by the same path, and all is as before, exactly when the path has a name in
   * it.
   */
  lemma RmdirUndoesMkdir(m: map<Path, Kind>, start: Path, ts: seq<string>)
    requires Closed(m) && Makes(m, start, ts) && (Names(ts) == [] ==> start == [])
    ensures CanRmdir(OpenedFiles(m, start, ts, true, true), start, ts) <==> Names(ts) != []
    ensures Names(ts) != [] ==> OpenedFiles(m, start, ts, true, true) - {FoundPath(start, ts)} == m
  {
    MadeKey(m, start, ts, true);
    NewKeyIsLeaf(m, TargetPath(start, ts));
    if Names(ts) != [] { TargetIsFound(start, ts); }
  }

  /**
   * A file just made can be unlinked by the same path, and all is as before, exactly when the path has a name in it.
   */
  lemma UnlinkUndoesCreate(m: map<Path, Kind>, start: Path, ts: seq<string>)
    requires Closed(m) && Makes(m, start, ts) && (Names(ts) == [] ==> start == [])
    ensures CanUnlink(OpenedFiles(m, start, ts, true, false), start, ts) <==> Names(ts) != []
    ensures Names(ts) != [] ==> OpenedFiles(m, start, ts, true, false) - {FoundPath(start, ts)} == m
  {
    MadeKey(m, start, ts, false);
    if Names(ts) != [] { TargetIsFound(start, ts); } else { NewKeyIsLeaf(m, TargetPath(start, ts)); }
  }

  /**
   * Opening "/" with O_CREAT makes an entry of that name, and no path leads to it: no token but a leading one is ever
   * "/".
   */
  lemma RootOpenMakesAnUnreachableName(m: map<Path, Kind>, directory: bool)
    requires Closed(m) && [ROOT] !in m
    ensures OpenedFiles(m, [], Split(ROOT), true, directory) == m[[ROOT] := if directory then Directory else File([])]
    ensures forall path: string, start: Path :: ROOT !in start ==> ROOT !in FoundPath(start, Split(path))
  {
    assert Split(ROOT) == [ROOT] && Names([ROOT]) == [] && ParentNames([ROOT]) == [];
    assert Normal1([], ROOT) == [ROOT];
    forall path: string, start: Path | ROOT !in start ensures ROOT !in FoundPath(start, Split(path)) {
      SplitIsClean(path);
      NormalOfNames(start, Names(Split(path)));
    }
  }

  lemma {:induction false} NormalOfNames(p: Path, ts: seq<string>)
    requires ROOT !in p && forall t <- ts :: IsToken(t)
    ensures ROOT !in Normal(p, ts)
    decreases ts
  {
    if ts != [] {
      assert ts[0] in ts && '/' in ROOT;
      NormalOfNames(Normal1(p, ts[0]), ts[1..]);
    }
  }

  // ---- The names in the tree ----

  /** A name a path can have walked into. */
  predicate IsName(t: string) { IsToken(t) && t != "." && t != ".." }

  /** All keys are made of such names, but for the one an O_CREAT open of "/" leaves behind. */
  ghost predicate NamesOk(m: map<Path, Kind>) {
    forall p :: p in m ==> p == [ROOT] || forall t <- p :: IsName(t)
  }

  lemma OpenKeepsNames(m: map<Path, Kind>, start: Path, path: string, create: bool, directory: bool)
    requires Closed(m) && NamesOk(m) && ROOT !in start && (IsAbsolute(path) ==> start == [])
    ensures NamesOk(OpenedFiles(m, start, Split(path), create, directory))
  {
    var ts := Split(path);
    var p := Normal(start, ParentNames(ts));
    if create && ParentFound(m, start, ts) && p in m && m[p] == Directory && Normal1(p, LastName(ts)) !in m {
      var t := LastName(ts);
      SplitIsClean(path);
      NormalOfNames(start, ParentNames(ts));
      RootTokenOf(path);
      assert Normal1(p, "..") in m;
      assert Normal1(p, t) == p + [t] && t != "." && t != "..";
      if Names(ts) == [] {
        assert t == ROOT && ParentNames(ts) == [];
      } else {
        assert t in Names(ts);
      }
    }
  }

  /** In every reachable state. */
  lemma {:induction false} RunsKeepNames(m: map<Path, Kind>, cwd: Path, ops: seq<Op>)
    requires Closed(m) && NamesOk(m) && ROOT !in cwd
    ensures NamesOk(Run(m, cwd, ops))
    decreases ops
  {
    if ops != [] {
      var op := ops[0];
      hide Closed, NamesOk, Split, OpenedFiles;
      RunsStayClosed(m, cwd, [op]);
      OneStep(m, cwd, op);
      if op.Open? {
        OpenKeepsNames(m, if IsAbsolute(op.path) then [] else cwd, op.path, op.create, op.directory);
      } else {
        FewerNames(m, Step(m, cwd, op));
      }
      RunsKeepNames(Step(m, cwd, op), cwd, ops[1..]);
    }
  }

  lemma OneStep(m: map<Path, Kind>, cwd: Path, op: Op)
    ensures Run(m, cwd, [op]) == Step(m, cwd, op)
  {
    assert [op][1..] == [];
  }

  lemma FewerNames(m: map<Path, Kind>, n: map<Path, Kind>)
    requires NamesOk(m) && n.Keys <= m.Keys
    ensures NamesOk(n)
  {
  }

  // ---- From a path down ----

  lemma {:induction false} PrefixIsDirectory(m: map<Path, Kind>, p: Path, q: Path)
    requires Closed(m) && q in m && p < q
    ensures p in m && m[p] == Directory
    decreases |q|
  {
    var up := q[..|q| - 1];
    if p < up {
      PrefixIsDirectory(m, p, up);
    } else {
      assert p == up;
    }
  }

  lemma {:induction false} NamesGoDown(p: Path, ts: seq<string>)
    requires forall t <- ts :: IsName(t)
    ensures Normal(p, ts) == p + ts
    decreases ts
  {
    if ts != [] {
      assert ts[0] in ts;
      NamesGoDown(p + [ts[0]], ts[1..]);
      assert p + [ts[0]] + ts[1..] == p + ts;
    } else {
      assert p + ts == p;
    }
  }

  lemma {:induction false} KeysAreReached(m: map<Path, Kind>, p: Path, ts: seq<string>)
    requires Closed(m) && p + ts in m && forall t <- ts :: IsName(t)
    ensures Passable(m, p, ts)
    decreases ts
  {
    hide Closed, IsName;
    if ts == [] {
      assert p + ts == p;
    } else {
      assert ts[0] in ts && forall t <- ts[1..] :: t in ts;
      PrefixIsDirectory(m, p, p + ts);
      assert p + [ts[0]] + ts[1..] == p + ts;
      KeysAreReached(m, p + [ts[0]], ts[1..]);
      NameIsNormal(p, ts[0]);
    }
  }

  lemma NameIsNormal(p: Path, t: string)
    requires IsName(t)
    ensures Normal1(p, t) == p + [t]
  {
  }

  // ---- The operations on plain paths ----

  /** A path of proper names is passed exactly if its end exists. */
  lemma PassableToEnd(m: map<Path, Kind>, start: Path, p: Path)
    requires Closed(m) && forall t <- p :: IsName(t)
    ensures Passable(m, start, p) <==> start + p in m
  {
    hide Closed, IsName;
    NamesGoDown(start, p);
    PassableEnds(m, start, p);
    if start + p in m { KeysAreReached(m, start, p); }
  }

  lemma {:induction false} PassableEnds(m: map<Path, Kind>, p: Path, ts: seq<string>)
    ensures Passable(m, p, ts) ==> Normal(p, ts) in m
    decreases ts
  {
    hide Normal1;
    if ts != [] { PassableEnds(m, Normal1(p, ts[0]), ts[1..]); }
  }

  /**
   * On a path of proper names, at or below `start`: an open finds what is at its end, or makes it there if asked to, in a
   * directory that exists; a removal or a change of directory looks at that key and at those below it.
   */
  lemma PlainPaths(
    m: map<Path, Kind>, start: Path, ts: seq<string>, p: Path, name: string, create: bool, exclusive: bool,
    directory: bool)
    requires Closed(m) && Names(ts) == p + [name] && forall t <- p + [name] :: IsName(t)
    ensures CanOpen(m, start, ts, create, exclusive) <==> (
      && start + p in m && m[start + p] == Directory
      && if start + p + [name] in m then !(create && exclusive) else create)
    ensures OpenedFiles(m, start, ts, create, directory) == (
      if create && start + p in m && m[start + p] == Directory && start + p + [name] !in m
      then m[start + p + [name] := if directory then Directory else File([])] else m)
    ensures CanRmdir(m, start, ts) <==>
      start + p + [name] in m && m[start + p + [name]] == Directory && forall q :: q in m ==> !(start + p + [name] < q)
    ensures CanUnlink(m, start, ts) <==> start + p + [name] in m && m[start + p + [name]].File?
    ensures CanChdir(m, start, ts) <==> start + p + [name] in m && m[start + p + [name]] == Directory
    ensures FoundPath(start, ts) == TargetPath(start, ts) == start + p + [name]
  {
    hide Closed, IsName, Passable, Normal, Normal1;
    TargetIsFound(start, ts);
    assert (p + [name])[..|p|] == p && name in p + [name] && forall t <- p :: t in p + [name];
    NamesGoDown(start, p);
    NamesGoDown(start, p + [name]);
    NameIsNormal(start + p, name);
    assert start + (p + [name]) == start + p + [name];
    PassableToEnd(m, start, p);
    PassableToEnd(m, start, p + [name]);
    if start + p + [name] in m { PrefixIsDirectory(m, start + p, start + p + [name]); }
  }

  /** The names that are not proper: "." stays, and ".." undoes a name but not the root. */
  lemma Dots(p: Path, name: string)
    requires IsName(name)
    ensures Normal(p, [".", name, ".."]) == p && Normal([], [".."]) == []
  {
    assert [".", name, ".."][1..] == [name, ".."] && [name, ".."][1..] == [".."] && [".."][1..] == [];
    assert Normal1(p, ".") == p && Normal1(p, name) == p + [name] && Normal1(p + [name], "..") == p;
    assert Normal(p, []) == p && Normal(p + [name], [".."]) == p && Normal(p, [name, ".."]) == p;
  }
}
