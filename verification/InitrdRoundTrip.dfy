/** Unpacking what mkinitrd writes gives back exactly the directories and files it was given. */
module InitrdRoundTrip {
  import opened Base
  import opened TmpfsEntry
  import opened FsTree
  import opened Paths
  import opened Vfs
  import opened FsRuns
  import opened InitrdImage

  // ---- The image is read entry by entry as it was written ----

  /** The name that survives the 64-byte field. */
  function Kept(name: string): string {
    if |name| < NAME_MAX then name else name[..NAME_MAX - 1]
  }

  lemma {:induction false} CStringOf(s: string, rest: Bytes)
    requires ByteString(s)
    ensures CString(BytesOf(s) + [0] + rest) == s
  {
    if s == [] {
      assert (BytesOf(s) + [0] + rest)[0] == 0;
    } else {
      assert s[0] in s && forall c <- s[1..] :: c in s;
      assert (BytesOf(s) + [0] + rest)[1..] == BytesOf(s[1..]) + [0] + rest;
      CStringOf(s[1..], rest);
    }
  }

  lemma NameIsRead(name: string, rest: Bytes)
    requires ByteString(name)
    ensures CString(NameField(name) + rest) == Kept(name)
  {
    var kept := Kept(name);
    forall c <- kept ensures c in name {}
    var pad := NAME_MAX - |kept|;
    assert Zeros(pad) == [0] + Zeros(pad - 1);
    assert NameField(name) + rest == BytesOf(kept) + [0] + (Zeros(pad - 1) + rest);
    CStringOf(kept, Zeros(pad - 1) + rest);
  }

  lemma WordIsRead(before: Bytes, w: nat, after: Bytes)
    requires w < TWO32
    ensures Word(before + WordBytes(w) + after, |before|) == w
  {
    var b := before + WordBytes(w) + after;
    var n := |before|;
    assert b[n] == w % 0x100 && b[n + 1] == w / 0x100 % 0x100 && b[n + 2] == w / 0x1_0000 % 0x100 && b[n + 3] == w / 0x100_0000;
    BytesMakeWord(w);
  }

  lemma BytesMakeWord(w: nat)
    requires w < TWO32
    ensures w == w % 0x100 + 0x100 * (w / 0x100 % 0x100) + 0x1_0000 * (w / 0x1_0000 % 0x100) + 0x100_0000 * (w / 0x100_0000)
  {
  }

  lemma Regroup(before: Bytes, name: Bytes, size: Bytes, kind: Bytes, data: Bytes, after: Bytes)
    requires |name| == NAME_MAX && |size| == 4 && |kind| == 4
    ensures var image, c := before + (name + size + kind + data) + after, |before|;
      && image[c..] == name + (size + kind + data + after)
      && image == (before + name) + size + (kind + data + after)
      && image == (before + name + size) + kind + (data + after)
      && image[c + HEADER..c + HEADER + |data|] == data
  {
  }

  /** The 72 bytes mkinitrd writes in front of an item's data. */
  function Prefix(i: Item): (b: Bytes)
    requires Printable(i)
    ensures |b| == HEADER
  {
    NameField(i.name) + WordBytes(|i.data|) + WordBytes(if i.isDir then 1 else 0)
  }

  function HeaderOf(i: Item): Header {
    Header(Kept(i.name), |i.data|, if i.isDir then 1 else 0)
  }

  lemma PrefixIsRead(before: Bytes, i: Item, tail: Bytes)
    requires Printable(i)
    ensures HeaderAt(before + Prefix(i) + tail, |before|) == HeaderOf(i)
  {
    hide NameField, WordBytes, CString, Word;
    var name, size, kind := NameField(i.name), WordBytes(|i.data|), WordBytes(if i.isDir then 1 else 0);
    Regroup(before, name, size, kind, tail, []);
    assert (name + size + kind + tail) + [] == Prefix(i) + tail;
    assert before + (name + size + kind + tail) + [] == before + Prefix(i) + tail;
    NameIsRead(i.name, size + kind + tail + []);
    WordIsRead(before + name, |i.data|, kind + tail + []);
    WordIsRead(before + name + size, if i.isDir then 1 else 0, tail + []);
  }

  lemma HeaderIsRead(before: Bytes, i: Item, after: Bytes)
    requires Printable(i)
    ensures HeaderAt(before + Printed(i) + after, |before|) == HeaderOf(i)
    ensures (before + Printed(i) + after)[|before| + HEADER..|before| + HEADER + |i.data|] == i.data
  {
    hide NameField, WordBytes, HeaderAt;
    assert before + Printed(i) + after == before + Prefix(i) + (i.data + after);
    PrefixIsRead(before, i, i.data + after);
  }

  lemma EndIsRead(before: Bytes)
    ensures IsEnd(HeaderAt(before + Zeros(HEADER), |before|))
  {
    var image := before + Zeros(HEADER);
    assert image[|before|..] == Zeros(HEADER);
    assert Zeros(HEADER)[0] == 0;
  }

  /** All entries in turn. */
  function AddAll(m: map<Path, Kind>, items: seq<Item>): (map<Path, Kind>, bool)
    requires [] in m
    decreases items
  {
    if items == [] then (m, true)
    else
      var (n, ok) := AddEntry(m, Kept(items[0].name), if items[0].isDir then 1 else 0, items[0].data);
      if ok then AddAll(n, items[1..]) else (n, false)
  }

  /** One turn of kinitrd_unpack over an entry whose data lies in the image. */
  lemma OneTurn(m: map<Path, Kind>, image: Bytes, c: nat, h: Header, data: Bytes)
    requires [] in m && c + HEADER + h.size <= |image| && HeaderAt(image, c) == h && !IsEnd(h)
    requires image[c + HEADER..c + HEADER + h.size] == data
    ensures Unpacked(m, image, c) == (
      var (n, ok) := AddEntry(m, h.name, h.kind, data); if ok then Unpacked(n, image, c + HEADER + h.size) else (n, false))
  {
    hide AddEntry, HeaderAt;
  }

  /** Unpacking a printed image does what adding its entries in turn does. */
  lemma {:induction false} PrintedIsUnpacked(m: map<Path, Kind>, before: Bytes, items: seq<Item>)
    requires [] in m && forall i <- items :: Printable(i) && i.name != ""
    ensures Unpacked(m, before + PrintedImage(items), |before|) == AddAll(m, items)
    decreases items
  {
    hide AddEntry, HeaderAt, Printed, PrintedImage, Zeros, Printable, Unpacked;
    if items == [] {
      NoItems(m, before);
    } else {
      var i, after := items[0], PrintedImage(items[1..]);
      assert i in items && forall j <- items[1..] :: j in items;
      FirstPrinted(before, items);
      FirstUnpacked(m, before, i, after);
      var n := AddEntry(m, Kept(i.name), if i.isDir then 1 else 0, i.data).0;
      PrintedIsUnpacked(n, before + Printed(i), items[1..]);
    }
  }

  lemma FirstPrinted(before: Bytes, items: seq<Item>)
    requires items != [] && forall i <- items :: Printable(i)
    ensures before + PrintedImage(items) == before + Printed(items[0]) + PrintedImage(items[1..])
  {
    hide Printed, Printable;
  }

  lemma NotTheEnd(i: Item)
    requires i.name != ""
    ensures !IsEnd(HeaderOf(i))
  {
  }

  /** The first entry of what is left, and where the next one starts. */
  lemma FirstUnpacked(m: map<Path, Kind>, before: Bytes, i: Item, after: Bytes)
    requires [] in m && Printable(i) && i.name != ""
    ensures Unpacked(m, before + Printed(i) + after, |before|) == (
      var (n, ok) := AddEntry(m, Kept(i.name), if i.isDir then 1 else 0, i.data);
      if ok then Unpacked(n, before + Printed(i) + after, |before + Printed(i)|) else (n, false))
  {
    hide AddEntry, HeaderAt, Unpacked, Printed, Printable, Kept, IsEnd;
    HeaderIsRead(before, i, after);
    NotTheEnd(i);
    assert |before + Printed(i)| == |before| + HEADER + |i.data|;
    OneTurn(m, before + Printed(i) + after, |before|, HeaderOf(i), i.data);
  }

  lemma NoItems(m: map<Path, Kind>, before: Bytes)
    requires [] in m
    ensures Unpacked(m, before + PrintedImage([]), |before|) == (m, true)
  {
    EndIsRead(before);
  }

  // ---- An image that is cut short ----

  /** How many of the items lie wholly in the first `n` bytes of their image. */
  function WholeItems(items: seq<Item>, n: nat): (k: nat)
    ensures k <= |items|
  {
    if items == [] || n < HEADER + |items[0].data| then 0 else 1 + WholeItems(items[1..], n - HEADER - |items[0].data|)
  }

  /** Unpacking an image cut short anywhere is refused, after exactly the items that lie wholly in what is left. */
  lemma {:induction false} CutShortIsRefused(m: map<Path, Kind>, before: Bytes, items: seq<Item>, n: nat)
    requires [] in m && (forall i <- items :: Printable(i) && i.name != "") && n < |PrintedImage(items)|
    ensures var r := Unpacked(m, before + PrintedImage(items)[..n], |before|);
      !r.1 && r.0 == AddAll(m, items[..WholeItems(items, n)]).0
    decreases items
  {
    hide AddEntry, HeaderAt, Printed, PrintedImage, Zeros, Printable, Unpacked, AddAll, WholeItems;
    if items == [] {
      NoRoom(m, before, n);
    } else {
      assert items[0] in items && forall j <- items[1..] :: j in items;
      FirstOfCut(items, n);
      if n < HEADER + |items[0].data| {
        FirstIsCut(m, before, items[0], PrintedImage(items)[..n]);
        NoneAdded(m, items);
      } else {
        var p := n - HEADER - |items[0].data|;
        var rest := PrintedImage(items[1..])[..p];
        assert before + PrintedImage(items)[..n] == before + Printed(items[0]) + rest;
        FirstUnpacked(m, before, items[0], rest);
        OneAdded(m, items, WholeItems(items[1..], p));
        var n1 := AddEntry(m, Kept(items[0].name), if items[0].isDir then 1 else 0, items[0].data);
        if n1.1 { CutShortIsRefused(n1.0, before + Printed(items[0]), items[1..], p); }
      }
    }
  }

  lemma NoRoom(m: map<Path, Kind>, before: Bytes, n: nat)
    requires [] in m && n < |PrintedImage([])|
    ensures Unpacked(m, before + PrintedImage([])[..n], |before|) == (m, false) && AddAll(m, []).0 == m
    ensures WholeItems([], n) == 0
  {
    hide HeaderAt, AddEntry;
  }

  lemma NoneAdded(m: map<Path, Kind>, items: seq<Item>)
    requires [] in m
    ensures AddAll(m, items[..0]) == (m, true)
  {
    assert items[..0] == [];
  }

  lemma OneAdded(m: map<Path, Kind>, items: seq<Item>, k: nat)
    requires [] in m && items != [] && k < |items|
    ensures var (n, ok) := AddEntry(m, Kept(items[0].name), if items[0].isDir then 1 else 0, items[0].data);
      AddAll(m, items[..k + 1]) == if ok then AddAll(n, items[1..][..k]) else (n, false)
  {
    hide AddEntry;
    assert items[..k + 1][0] == items[0] && items[..k + 1][1..] == items[1..][..k];
  }

  lemma FirstOfCut(items: seq<Item>, n: nat)
    requires items != [] && (forall i <- items :: Printable(i)) && n < |PrintedImage(items)|
    ensures PrintedImage(items) == Printed(items[0]) + PrintedImage(items[1..])
    ensures n < HEADER + |items[0].data| ==>
      WholeItems(items, n) == 0 && PrintedImage(items)[..n] == Printed(items[0])[..n]
    ensures n >= HEADER + |items[0].data| ==>
      var p := n - HEADER - |items[0].data|;
      && WholeItems(items, n) == 1 + WholeItems(items[1..], p) && p < |PrintedImage(items[1..])|
      && PrintedImage(items)[..n] == Printed(items[0]) + PrintedImage(items[1..])[..p]
  {
    hide Printed, Printable;
  }

  /** An entry whose header or data is cut off ends the unpacking. */
  lemma FirstIsCut(m: map<Path, Kind>, before: Bytes, i: Item, part: Bytes)
    requires [] in m && Printable(i) && i.name != "" && |part| < HEADER + |i.data| && part == Printed(i)[..|part|]
    ensures Unpacked(m, before + part, |before|) == (m, false)
  {
    hide HeaderAt, AddEntry, NameField, WordBytes;
    var image := before + part;
    if |part| >= HEADER {
      assert part == Prefix(i) + part[HEADER..];
      assert image == before + Prefix(i) + part[HEADER..];
      PrefixIsRead(before, i, part[HEADER..]);
      NotTheEnd(i);
    }
  }

  // ---- The entries add up to exactly their paths ----

  /** The path an item names. */
  function PathOf(i: Item): Path { Components(i.name) }

  /** Where unpacking puts it: the name is cut to its field, and the path to the token buffer. */
  function Placed(i: Item): Path { Names(Split(Kept(i.name))) }

  /** At most 15 names; what the 64-byte field cuts off is nothing but slashes. */
  predicate Fits(i: Item) {
    |PathOf(i)| < MAX_PARTS && (|i.name| < NAME_MAX || OnlySlashes(i.name[NAME_MAX - 1..]))
  }

  /** An item with an absolute path goes where its name says exactly when the name fits. */
  lemma PlacedIff(i: Item)
    requires IsAbsolute(i.name)
    ensures Placed(i) == PathOf(i) <==> Fits(i)
  {
    var kept := Kept(i.name);
    var tail := if |i.name| < NAME_MAX then "" else i.name[NAME_MAX - 1..];
    assert i.name == kept + tail;
    NamesOfSplit(kept);
    assert IsAbsolute(kept) && Placed(i) == Tokens(kept, MAX_PARTS - 1);
    hide Tokens, Components, Split, NonSlash, Concat;
    assert |Tokens(kept, MAX_PARTS - 1)| <= MAX_PARTS - 1;
    TokensArePrefix(kept, MAX_PARTS - 1);
    ComponentsSpell(i.name);
    NonSlashOfSum(kept, tail);
    NothingButSlashes(tail);
    if OnlySlashes(tail) {
      ComponentsOfSum(kept, tail);
      ComponentsAreShort(kept);
      WithinLimitsIff(kept, MAX_PARTS - 1);
    }
  }

  /** Example: a file named with 70 letters lands at the first 62 of them. */
  lemma LongNameIsCut(i: Item, letters: string)
    requires |letters| == 70 && '/' !in letters && i.name == "/" + letters
    ensures PathOf(i) == [letters] && Placed(i) == [letters[..62]]
  {
    var kept, t := Kept(i.name), letters[..62];
    OneComponent(letters);
    assert i.name[1..] == letters;
    NamesOfSplit(kept);
    assert kept == "/" + t + [] && IsAbsolute(kept);
    FirstOfSlashed(t, [], MAX_PARTS - 1);
    NoTokens([], MAX_PARTS - 2);
  }

  lemma OneComponent(t: string)
    requires t != [] && '/' !in t
    ensures Components(t) == [t]
  {
    RunOfToken(t, []);
    assert t + [] == t && t[..|t|] == t && t[|t|..] == [] && t[0] in t;
  }

  /** An absolute path of proper names that fits; a file needs at least one name. */
  predicate Good(i: Item) {
    && Printable(i) && IsAbsolute(i.name) && Fits(i)
    && (forall t <- PathOf(i) :: IsName(t)) && (!i.isDir ==> PathOf(i) != [])
  }

  /** Nothing else lies at or below a file's path. */
  predicate Apart(items: seq<Item>) {
    forall a, b :: 0 <= a < |items| && 0 <= b < |items| && a != b && !items[a].isDir ==> !(PathOf(items[a]) <= PathOf(items[b]))
  }

  /** `p` is the path of an item, or an implied parent of one. */
  ghost predicate Implied(items: seq<Item>, p: Path) {
    p == [] || exists a :: 0 <= a < |items| && p <= PathOf(items[a])
  }

  /** The file item at `a` stands in `m` with its bytes. */
  ghost predicate FileBytes(m: map<Path, Kind>, items: seq<Item>, a: nat)
    requires a < |items|
  {
    !items[a].isDir && PathOf(items[a]) in m ==> m[PathOf(items[a])] == File(items[a].data)
  }

  /** `p` is the path of a file item. */
  ghost predicate FileOf(items: seq<Item>, p: Path) {
    exists a :: 0 <= a < |items| && !items[a].isDir && PathOf(items[a]) == p
  }

  /** Exactly the directories, implied parents and files of the items, the files with exactly their bytes. */
  ghost predicate Describes(m: map<Path, Kind>, items: seq<Item>) {
    && (forall p :: p in m <==> Implied(items, p))
    && (forall a: nat :: a < |items| ==> FileBytes(m, items, a))
    && (forall p :: p in m && m[p] != Directory ==> FileOf(items, p))
  }

  /** The prefixes of `p + names` from `p` on. */
  ghost predicate Between(p: Path, q: Path, names: seq<string>) { p <= q && q <= p + names }

  /** Nothing on the way is a file. */
  ghost predicate Clear(m: map<Path, Kind>, p: Path, names: seq<string>) {
    forall q :: q in m && Between(p, q, names) ==> m[q] == Directory
  }

  ghost predicate Ensured(m: map<Path, Kind>, n: map<Path, Kind>, p: Path, names: seq<string>) {
    && (forall q :: q in n <==> q in m || Between(p, q, names))
    && (forall q :: q in n ==> n[q] == if q in m then m[q] else Directory)
  }

  lemma BetweenSteps(p: Path, q: Path, names: seq<string>)
    requires names != []
    ensures p + [names[0]] + names[1..] == p + names
    ensures Between(p, q, names) <==> q == p || Between(p + [names[0]], q, names[1..])
  {
    assert p + [names[0]] + names[1..] == p + names;
    if p <= q && q != p {
      assert q <= p + names ==> q[|p|] == (p + names)[|p|];
      assert q == p + q[|p|..];
    }
  }

  lemma {:induction false} EnsureMakes(m: map<Path, Kind>, p: Path, names: seq<string>)
    requires p in m && Clear(m, p, names) && forall t <- names :: IsName(t)
    ensures Ensure(m, p, names).1 == Some(p + names) && Ensured(m, Ensure(m, p, names).0, p, names)
    decreases names
  {
    if names == [] {
      assert p + [] == p;
      assert forall q :: Between(p, q, []) ==> q == p;
    } else {
      var t, rest := names[0], names[1..];
      assert t in names;
      forall q ensures Between(p, q, names) <==> q == p || Between(p + [t], q, rest) { BetweenSteps(p, q, names); }
      BetweenSteps(p, p, names);
      var n := Touched(m, p, t, true);
      assert Between(p, p, names) && Normal1(p, t) == p + [t];
      assert n == if p + [t] in m then m else m[p + [t] := Directory];
      hide Between;
      EnsureMakes(n, p + [t], rest);
      assert Between(p + [t], p + [t], rest) by { Ends(p + [t], rest); }
    }
  }

  lemma Ends(p: Path, names: seq<string>)
    ensures Between(p, p, names)
  {
  }

  lemma ApartFrom(items: seq<Item>, i: Item)
    requires Apart(items + [i])
    ensures forall a :: 0 <= a < |items| && !items[a].isDir ==> !(PathOf(items[a]) <= PathOf(i))
    ensures !i.isDir ==> forall a :: 0 <= a < |items| ==> !(PathOf(i) <= PathOf(items[a]))
  {
    var all := items + [i];
    assert all[|items|] == i && forall a :: 0 <= a < |items| ==> all[a] == items[a];
  }

  /** No file lies on the way to an item. */
  lemma WayIsClear(m: map<Path, Kind>, items: seq<Item>, i: Item, names: Path)
    requires Describes(m, items) && Apart(items + [i]) && names <= PathOf(i)
    ensures Clear(m, [], names)
  {
    ApartFrom(items, i);
    assert [] + names == names;
  }

  lemma OldFileOf(items: seq<Item>, i: Item, q: Path)
    requires FileOf(items, q)
    ensures FileOf(items + [i], q)
  {
    var a :| 0 <= a < |items| && !items[a].isDir && PathOf(items[a]) == q;
    assert (items + [i])[a] == items[a];
  }

  lemma MoreItems(m: map<Path, Kind>, items: seq<Item>, i: Item, n: map<Path, Kind>)
    requires Describes(m, items) && i.isDir && Ensured(m, n, [], PathOf(i))
    ensures Describes(n, items + [i])
  {
    hide Implied, PathOf, FileBytes, FileOf, Between;
    var all := items + [i];
    forall q ensures q in n <==> Implied(all, q) {
      ImpliedMore(items, i, q);
      FromTheRoot(q, PathOf(i));
    }
    forall a: nat | a < |all| ensures FileBytes(n, all, a) {
      OldBytes(m, items, i, n, a);
    }
    forall q | q in n && n[q] != Directory ensures FileOf(all, q) { OldFileOf(items, i, q); }
  }

  lemma FromTheRoot(q: Path, names: seq<string>)
    ensures Between([], q, names) <==> q <= names
  {
    assert [] + names == names;
  }

  lemma OldBytes(m: map<Path, Kind>, items: seq<Item>, i: Item, n: map<Path, Kind>, a: nat)
    requires Describes(m, items) && i.isDir && Ensured(m, n, [], PathOf(i)) && a < |items + [i]|
    ensures FileBytes(n, items + [i], a)
  {
    hide PathOf, FileOf, Between;
    if a < |items| {
      assert (items + [i])[a] == items[a] && FileBytes(m, items, a);
      assert Implied(items, PathOf(items[a]));
    }
  }

  lemma ImpliedMore(items: seq<Item>, i: Item, q: Path)
    ensures Implied(items + [i], q) <==> Implied(items, q) || q <= PathOf(i)
  {
    var all := items + [i];
    assert all[|items|] == i;
    if q != [] && exists a :: 0 <= a < |items| && q <= PathOf(items[a]) {
      var a :| 0 <= a < |items| && q <= PathOf(items[a]);
      assert all[a] == items[a];
    }
  }

  /** A file's path is not there yet. */
  lemma FileIsNew(m: map<Path, Kind>, n: map<Path, Kind>, items: seq<Item>, i: Item, pre: Path, t: string)
    requires Describes(m, items) && Apart(items + [i]) && !i.isDir && PathOf(i) == pre + [t]
    requires Ensured(m, n, [], pre) && Clear(m, [], pre)
    ensures PathOf(i) !in n && pre in n && n[pre] == Directory
  {
    ApartFrom(items, i);
    assert [] + pre == pre;
    assert Between([], pre, pre);
    assert !Between([], PathOf(i), pre);
  }

  /** The prefixes of a path are those of its parent, and itself. */
  lemma PrefixesOf(pre: Path, t: string, q: Path)
    ensures q <= pre + [t] <==> Between([], q, pre) || q == pre + [t]
  {
    var p := pre + [t];
    assert [] + pre == pre;
    assert q <= p && q != p ==> q == p[..|q|] == pre[..|q|];
    assert q <= pre ==> q == pre[..|q|] == p[..|q|];
  }

  lemma FileKeys(m: map<Path, Kind>, n: map<Path, Kind>, items: seq<Item>, i: Item, pre: Path, t: string, q: Path)
    requires Describes(m, items) && PathOf(i) == pre + [t] && Ensured(m, n, [], pre)
    ensures q in n[PathOf(i) := File(i.data)] <==> Implied(items + [i], q)
  {
    ImpliedMore(items, i, q);
    PrefixesOf(pre, t, q);
    hide Implied, Between;
  }

  lemma OldFileBytes(m: map<Path, Kind>, n: map<Path, Kind>, items: seq<Item>, i: Item, pre: Path, a: nat)
    requires Describes(m, items) && Apart(items + [i]) && !i.isDir && Ensured(m, n, [], pre) && a < |items|
    ensures FileBytes(n[PathOf(i) := File(i.data)], items + [i], a)
  {
    ApartFrom(items, i);
    assert (items + [i])[a] == items[a] && FileBytes(m, items, a);
    assert Implied(items, PathOf(items[a]));
  }

  lemma FileNames(m: map<Path, Kind>, n: map<Path, Kind>, items: seq<Item>, i: Item, pre: Path, q: Path)
    requires Describes(m, items) && !i.isDir && Ensured(m, n, [], pre)
    requires q in n[PathOf(i) := File(i.data)] && n[PathOf(i) := File(i.data)][q] != Directory
    ensures FileOf(items + [i], q)
  {
    if q == PathOf(i) {
      assert (items + [i])[|items|] == i;
    } else {
      OldFileOf(items, i, q);
    }
  }

  lemma MoreFiles(m: map<Path, Kind>, n: map<Path, Kind>, items: seq<Item>, i: Item, pre: Path, t: string)
    requires Describes(m, items) && Apart(items + [i]) && !i.isDir && PathOf(i) == pre + [t] && Ensured(m, n, [], pre)
    ensures Describes(n[PathOf(i) := File(i.data)], items + [i])
  {
    hide Implied, FileOf, Apart, Ensured;
    var all, g := items + [i], n[PathOf(i) := File(i.data)];
    forall q ensures q in g <==> Implied(all, q) { FileKeys(m, n, items, i, pre, t, q); }
    forall a: nat | a < |all| ensures FileBytes(g, all, a) {
      if a < |items| { OldFileBytes(m, n, items, i, pre, a); }
    }
    forall q | q in g && g[q] != Directory ensures FileOf(all, q) {
      FileNames(m, n, items, i, pre, q);
    }
  }

  /** kinitrd_unpack_file when the parent is there and the file is not. */
  lemma FreshFile(m: map<Path, Kind>, pre: Path, t: string, data: Bytes)
    requires [] in m && IsName(t) && Ensure(m, [], pre).1 == Some(pre)
    requires Ensure(m, [], pre).0[pre] == Directory && pre + [t] !in Ensure(m, [], pre).0
    ensures AddFile(m, pre + [t], data) == (Ensure(m, [], pre).0[pre + [t] := File(data)], true)
  {
    hide Ensure;
    var p := pre + [t];
    assert p[..|p| - 1] == pre && p[|p| - 1] == t && Normal1(pre, t) == p && Overwrite([], 0, data) == data;
    var n := Ensure(m, [], pre).0;
    assert n[p := File([])][p := File(data)] == n[p := File(data)];
  }

  lemma LastName(p: Path)
    requires p != [] && forall t <- p :: IsName(t)
    ensures p == p[..|p| - 1] + [p[|p| - 1]] && IsName(p[|p| - 1]) && forall u <- p[..|p| - 1] :: IsName(u)
    ensures p[..|p| - 1] <= p && [] + p[..|p| - 1] == p[..|p| - 1]
  {
  }

  lemma FileIsAdded(m: map<Path, Kind>, items: seq<Item>, i: Item)
    requires Describes(m, items) && Good(i) && !i.isDir && Apart(items + [i]) && [] in m
    ensures AddFile(m, PathOf(i), i.data).1 && Describes(AddFile(m, PathOf(i), i.data).0, items + [i])
  {
    hide Describes, Apart, Ensure, Ensured, Clear, AddFile, IsName, PathOf, Printable;
    var p := PathOf(i);
    LastName(p);
    var pre, t := p[..|p| - 1], p[|p| - 1];
    WayIsClear(m, items, i, pre);
    EnsureMakes(m, [], pre);
    var n := Ensure(m, [], pre).0;
    FileIsNew(m, n, items, i, pre, t);
    MoreFiles(m, n, items, i, pre, t);
    FreshFile(m, pre, t, i.data);
  }

  lemma DirectoryIsAdded(m: map<Path, Kind>, items: seq<Item>, i: Item)
    requires Describes(m, items) && Good(i) && i.isDir && Apart(items + [i]) && [] in m
    ensures Ensure(m, [], PathOf(i)).1.Some? && Describes(Ensure(m, [], PathOf(i)).0, items + [i])
  {
    hide Describes, Apart, Ensure, Ensured, Clear;
    WayIsClear(m, items, i, PathOf(i));
    EnsureMakes(m, [], PathOf(i));
    MoreItems(m, items, i, Ensure(m, [], PathOf(i)).0);
  }

  lemma KeptIsAbsolute(name: string)
    requires IsAbsolute(name)
    ensures IsAbsolute(Kept(name))
  {
  }

  lemma ItemIsAdded(m: map<Path, Kind>, items: seq<Item>, i: Item)
    requires Describes(m, items) && Good(i) && Apart(items + [i]) && [] in m
    ensures AddEntry(m, Kept(i.name), if i.isDir then 1 else 0, i.data).1
    ensures Describes(AddEntry(m, Kept(i.name), if i.isDir then 1 else 0, i.data).0, items + [i])
  {
    hide Describes, Apart, Ensure, AddFile, Split, Names, Good, Kept;
    EntryOf(m, i);
    if i.isDir { DirectoryIsAdded(m, items, i); } else { FileIsAdded(m, items, i); }
  }

  /** Types 0 and 1 are a file and a directory. */
  lemma EntryOf(m: map<Path, Kind>, i: Item)
    requires Good(i) && [] in m
    ensures AddEntry(m, Kept(i.name), if i.isDir then 1 else 0, i.data) ==
      if i.isDir then (Ensure(m, [], PathOf(i)).0, Ensure(m, [], PathOf(i)).1.Some?) else AddFile(m, PathOf(i), i.data)
  {
    hide Split, Names, Ensure, AddFile, Components, Fits;
    KeptIsAbsolute(i.name);
    PlacedIff(i);
  }

  lemma AddAllTurn(m: map<Path, Kind>, items: seq<Item>)
    requires [] in m && items != []
    ensures var (n, ok) := AddEntry(m, Kept(items[0].name), if items[0].isDir then 1 else 0, items[0].data);
      AddAll(m, items) == if ok then AddAll(n, items[1..]) else (n, false)
  {
    hide AddEntry, Kept;
  }

  lemma {:induction false} ItemsAddUp(m: map<Path, Kind>, done: seq<Item>, items: seq<Item>)
    requires Describes(m, done) && [] in m && Apart(done + items) && forall i <- items :: Good(i)
    ensures AddAll(m, items).1 && Describes(AddAll(m, items).0, done + items)
    decreases items
  {
    hide Describes, Apart, AddEntry, Good, Kept, AddAll;
    if items == [] {
      assert done + items == done;
      NothingToAdd(m);
    } else {
      var i := items[0];
      assert i in items && forall j <- items[1..] :: j in items;
      assert done + [i] + items[1..] == done + items;
      FewerApart(done, items);
      ItemIsAdded(m, done, i);
      AddAllTurn(m, items);
      ItemsAddUp(AddEntry(m, Kept(i.name), if i.isDir then 1 else 0, i.data).0, done + [i], items[1..]);
    }
  }

  lemma NothingToAdd(m: map<Path, Kind>)
    requires [] in m
    ensures AddAll(m, []) == (m, true)
  {
  }

  lemma FewerApart(done: seq<Item>, items: seq<Item>)
    requires items != [] && Apart(done + items)
    ensures Apart(done + [items[0]])
  {
    var all, some := done + items, done + [items[0]];
    assert forall a :: 0 <= a < |some| ==> some[a] == all[a];
  }

  /**
   * Round trip: for entries with absolute paths of proper names, no two entries at one file path and none below a file,
   * unpacking the printed image into a fresh tree succeeds, and yields exactly those directories, their implied parents,
   * and those files with exactly their bytes.
   */
  lemma InitrdRoundTrip(items: seq<Item>)
    requires (forall i <- items :: Printable(i) && Good(i)) && Apart(items)
    ensures var r := Unpacked(map[[] := Directory], PrintedImage(items), 0); r.1 && Describes(r.0, items)
  {
    var m := map[[] := Directory];
    assert Describes(m, []);
    assert [] + items == items && [] + PrintedImage(items) == PrintedImage(items);
    hide Describes, Apart, Unpacked;
    ItemsAddUp(m, [], items);
    PrintedIsUnpacked(m, [], items);
  }

  // ---- One entry, whatever the file system holds already ----

  /** Every key that lies strictly above `names` is a directory. */
  ghost predicate OpenWay(m: map<Path, Kind>, names: Path) {
    forall q :: q in m && q < names ==> m[q] == Directory
  }

  /** `names` and the keys above it are there; what was there is as it was, and the rest are directories. */
  ghost predicate WithParents(m: map<Path, Kind>, n: map<Path, Kind>, names: Path) {
    && (forall q :: q in n <==> q in m || q <= names)
    && (forall q :: q in n ==> n[q] == if q in m then m[q] else Directory)
  }

  /** An existing path is walked down and nothing is made. */
  lemma {:induction false} EnsureExisting(m: map<Path, Kind>, p: Path, names: seq<string>)
    requires Closed(m) && p + names in m && p in m && forall t <- names :: IsName(t)
    ensures Ensure(m, p, names) == (m, Some(p + names))
    decreases names
  {
    hide Closed, IsName;
    if names == [] {
      assert p + [] == p;
    } else {
      assert p + [names[0]] + names[1..] == p + names && names[0] in names && forall t <- names[1..] :: t in names;
      NameIsNormal(p, names[0]);
      PrefixIsDirectory(m, p, p + names);
      PrefixExists(m, p + [names[0]], p + names);
      EnsureExisting(m, p + [names[0]], names[1..]);
    }
  }

  /** A file on the way ends it, with nothing made. */
  lemma {:induction false} EnsureBlocked(m: map<Path, Kind>, p: Path, names: seq<string>, q: Path)
    requires Closed(m) && p in m && q in m && m[q] != Directory && p <= q < p + names && forall t <- names :: IsName(t)
    ensures Ensure(m, p, names) == (m, None)
    decreases names
  {
    hide Closed, IsName;
    if p != q {
      assert p + [names[0]] + names[1..] == p + names && names[0] in names && forall t <- names[1..] :: t in names;
      NameIsNormal(p, names[0]);
      PrefixIsDirectory(m, p, q);
      assert p + [names[0]] <= q;
      PrefixExists(m, p + [names[0]], q);
      EnsureBlocked(m, p + [names[0]], names[1..], q);
    }
  }

  lemma EnsureDecided(m: map<Path, Kind>, names: Path)
    requires Closed(m) && forall t <- names :: IsName(t)
    ensures [] in m
    ensures OpenWay(m, names) ==> Ensure(m, [], names).1 == Some(names) && WithParents(m, Ensure(m, [], names).0, names)
    ensures !OpenWay(m, names) ==> Ensure(m, [], names) == (m, None)
  {
    hide IsName, Ensure;
    assert [] + names == names;
    if !OpenWay(m, names) {
      var q :| q in m && q < names && m[q] != Directory;
      EnsureBlocked(m, [], names, q);
    } else if names in m {
      EnsureExisting(m, [], names);
      forall q | q <= names ensures q in m { PrefixExists(m, q, names); }
    } else {
      forall q | q in m && Between([], q, names) ensures m[q] == Directory { assert q != names; }
      EnsureMakes(m, [], names);
    }
  }

  /** The content is `data`, and behind it what the file held beyond that. */
  ghost predicate Overwritten(before: Bytes, after: Bytes, data: Bytes) {
    && |after| == (if |data| < |before| then |before| else |data|)
    && (forall i :: 0 <= i < |data| ==> after[i] == data[i])
    && (forall i :: |data| <= i < |before| ==> after[i] == before[i])
  }

  /** The same for a file at `p`: a new one, or one that was there, or a directory that no data were meant for. */
  ghost predicate WithFile(m: map<Path, Kind>, n: map<Path, Kind>, p: Path, data: Bytes) {
    && p in n && (if p in m && m[p] == Directory then n[p] == Directory else n[p].File?)
    && (n[p].File? ==> Overwritten(if p in m then m[p].content else [], n[p].content, data))
    && (forall q :: q in n <==> q in m || q <= p)
    && (forall q :: q in n && q != p ==> n[q] == if q in m then m[q] else Directory)
  }

  lemma WayAbove(m: map<Path, Kind>, pre: Path, t: string)
    ensures OpenWay(m, pre + [t]) <==> OpenWay(m, pre) && (pre in m ==> m[pre] == Directory)
  {
    var p := pre + [t];
    assert pre < p;
    forall q | q in m && q < p && q != pre ensures q < pre {
      assert q == p[..|q|] == pre[..|q|];
    }
  }

  lemma ParentIsMade(m: map<Path, Kind>, n: map<Path, Kind>, pre: Path)
    requires WithParents(m, n, pre)
    ensures pre in n && n[pre] == if pre in m then m[pre] else Directory
  {
  }

  /** In a parent that is there. */
  lemma FileIsLaid(m: map<Path, Kind>, n: map<Path, Kind>, pre: Path, t: string, data: Bytes)
    requires WithParents(m, n, pre) && pre in n && n[pre] == Directory && IsName(t)
    requires data == [] || pre + [t] !in m || m[pre + [t]].File?
    ensures var g := Touched(n, pre, t, false); Normal1(pre, t) == pre + [t] && pre + [t] in g && Written(g, pre + [t], data).1
    ensures WithFile(m, Written(Touched(n, pre, t, false), pre + [t], data).0, pre + [t], data)
  {
    var p, g := pre + [t], Written(Touched(n, pre, t, false), pre + [t], data).0;
    NameIsNormal(pre, t);
    assert !(p <= pre);
    forall q ensures q in g <==> q in m || q <= p {
      PrefixesOf(pre, t, q);
      assert [] + pre == pre;
    }
  }

  /** The file entry, at `p` below its parent. */
  lemma FileDecided(m: map<Path, Kind>, p: Path, data: Bytes)
    requires Closed(m) && p != [] && forall t <- p :: IsName(t)
    ensures [] in m
    ensures var (n, ok) := AddFile(m, p, data);
      && (ok <==> OpenWay(m, p) && (data == [] || p !in m || m[p].File?))
      && (!ok ==> n == m)
      && (ok ==> WithFile(m, n, p, data))
  {
    hide Ensure, IsName, WithFile, WithParents;
    LastName(p);
    var pre, t := p[..|p| - 1], p[|p| - 1];
    NameIsNormal(pre, t);
    EnsureDecided(m, pre);
    WayAbove(m, pre, t);
    if OpenWay(m, pre) {
      if pre in m { EnsureExisting(m, [], pre); }
      if p in m { PrefixIsDirectory(m, pre, p); }
      ParentIsMade(m, Ensure(m, [], pre).0, pre);
      if OpenWay(m, p) && (data == [] || p !in m || m[p].File?) { FileIsLaid(m, Ensure(m, [], pre).0, pre, t, data); }
    }
  }

  /**
   * kinitrd_unpack_entry on an absolute path of proper names. It is refused exactly for another type, below a file, for a file
   * without a name, and for data that would go to a directory; then nothing has changed. Otherwise the path and all above it
   * exist afterwards, everything else is as it was, and a file has its data in front.
   */
  lemma EntryDecided(m: map<Path, Kind>, name: string, kind: nat, data: Bytes, p: Path)
    requires Closed(m) && IsAbsolute(name) && p == Names(Split(name)) && forall t <- p :: IsName(t)
    ensures [] in m
    ensures var (n, ok) := AddEntry(m, name, kind, data);
      && (ok <==> match KindOfType(kind)
          case OtherEntry => false
          case DirectoryEntry => OpenWay(m, p)
          case FileEntry => p != [] && OpenWay(m, p) && (data == [] || p !in m || m[p].File?))
      && (!ok ==> n == m)
      && (ok && KindOfType(kind) == DirectoryEntry ==> WithParents(m, n, p))
      && (ok && KindOfType(kind) == FileEntry ==> WithFile(m, n, p, data))
  {
    hide Split, IsName, Ensure;
    EnsureDecided(m, p);
    if KindOfType(kind) == FileEntry && p != [] { FileDecided(m, p, data); }
  }
}
