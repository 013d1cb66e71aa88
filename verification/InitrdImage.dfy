/** initrd.c and tools/mkinitrd.c: the image format, and the file system an image stands for. */
module InitrdImage {
  import opened Base
  import opened TmpfsEntry
  import opened FsTree
  import opened Paths
  import opened Vfs

  const NAME_MAX := 64
  const HEADER := 72

  // ---- Reading ----

  /** initrd_entry_t as it is read; the name ends at its first NUL, wherever that is. */
  datatype Header = Header(name: string, size: nat, kind: nat)

  function CString(b: Bytes): (s: string)
    ensures |s| <= |b| && '\0' !in s
  {
    if b == [] || b[0] == 0 then [] else [b[0] as char] + CString(b[1..])
  }

  /** A little-endian 32-bit word. */
  function Word(b: Bytes, at: nat): (w: nat)
    requires at + 4 <= |b|
    ensures w < TWO32
  {
    var b0: int, b1: int, b2: int, b3: int := b[at], b[at + 1], b[at + 2], b[at + 3];
    b0 + 0x100 * b1 + 0x1_0000 * b2 + 0x100_0000 * b3
  }

  function HeaderAt(image: Bytes, c: nat): Header
    requires c + HEADER <= |image|
  {
    Header(CString(image[c..]), Word(image, c + NAME_MAX), Word(image, c + NAME_MAX + 4))
  }

  predicate IsEnd(h: Header) { h.name == "" && h.size == 0 && h.kind == 0 }

  datatype EntryKind = DirectoryEntry | FileEntry | OtherEntry

  /** kinitrd_get_entry_mode: VFS type bits when there are any, else 1 for a directory and a file otherwise. */
  function KindOfType(t: nat): EntryKind {
    var bits := t / 0x1000 % 0x10;
    if bits == 4 then DirectoryEntry else if bits == 8 then FileEntry else if bits != 0 then OtherEntry
    else if t == 1 then DirectoryEntry else FileEntry
  }

  /** With or without permissions, S_IFDIR is a directory and S_IFREG a file; without a type only 1 is a directory. */
  lemma TypesOfStat(permissions: nat)
    requires permissions < 0x1000
    ensures KindOfType(0x4000 + permissions) == DirectoryEntry && KindOfType(0x8000 + permissions) == FileEntry
    ensures KindOfType(permissions) == if permissions == 1 then DirectoryEntry else FileEntry
    ensures forall t: nat :: 0 < t < 0x10 && t != 4 && t != 8 ==> KindOfType(t * 0x1000 + permissions) == OtherEntry
  {
  }

  // ---- What unpacking does to the file system ----

  /** kinitrd_ensure_directory: missing components become directories; a file on the way ends it. */
  function Ensure(m: map<Path, Kind>, p: Path, names: seq<string>): (r: (map<Path, Kind>, Option<Path>))
    requires p in m
    ensures m.Keys <= r.0.Keys && (r.1.Some? ==> r.1.value in r.0)
    decreases names
  {
    if names == [] then (m, Some(p))
    else if m[p] != Directory then (m, None)
    else Ensure(Touched(m, p, names[0], true), Normal1(p, names[0]), names[1..])
  }

  /** kinitrd_write_file_data on the entry at `t`: an empty file is not written to, a directory cannot be. */
  function Written(m: map<Path, Kind>, t: Path, data: Bytes): (map<Path, Kind>, bool)
    requires t in m
  {
    if data == [] then (m, true)
    else if m[t] == Directory then (m, false)
    else (m[t := File(Overwrite(m[t].content, 0, data))], true)
  }

  /** kinitrd_unpack_file */
  function AddFile(m: map<Path, Kind>, names: seq<string>, data: Bytes): (r: (map<Path, Kind>, bool))
    requires [] in m
    ensures m.Keys <= r.0.Keys
  {
    if names == [] then (m, false)
    else
      var (n, found) := Ensure(m, [], names[..|names| - 1]);
      var name := names[|names| - 1];
      if found == None || n[found.value] != Directory then (n, false)
      else Written(Touched(n, found.value, name, false), Normal1(found.value, name), data)
  }

  /** kinitrd_unpack_entry */
  function AddEntry(m: map<Path, Kind>, name: string, kind: nat, data: Bytes): (r: (map<Path, Kind>, bool))
    requires [] in m
    ensures [] in r.0
  {
    var k := KindOfType(kind);
    if k == OtherEntry || !IsAbsolute(name) then (m, false)
    else if k == DirectoryEntry then
      var (n, found) := Ensure(m, [], Names(Split(name)));
      (n, found.Some?)
    else AddFile(m, Names(Split(name)), data)
  }

  /** kinitrd_unpack from the cursor on: the cursor strictly advances and never leaves the image. */
  function Unpacked(m: map<Path, Kind>, image: Bytes, c: nat): (map<Path, Kind>, bool)
    requires c <= |image| && [] in m
    decreases |image| - c
  {
    if |image| - c < HEADER then (m, false)
    else
      var h := HeaderAt(image, c);
      if IsEnd(h) then (m, true)
      else if |image| - (c + HEADER) < h.size then (m, false)
      else
        var (n, ok) := AddEntry(m, h.name, h.kind, image[c + HEADER..c + HEADER + h.size]);
        if ok then Unpacked(n, image, c + HEADER + h.size) else (n, false)
  }

  // ---- Printing ----

  /** What mkinitrd is asked to write: types 0 and 1 only; directories carry no data. */
  datatype Item = Item(name: string, isDir: bool, data: Bytes)

  predicate ByteString(s: string) {
    forall c <- s :: 0 < c as int < 256
  }

  function BytesOf(s: string): (b: Bytes)
    requires ByteString(s)
    ensures |b| == |s|
  {
    if s == [] then [] else assert s[0] in s && forall c <- s[1..] :: c in s; [s[0] as int] + BytesOf(s[1..])
  }

  function Zeros(n: nat): (b: Bytes)
    ensures |b| == n && forall i :: 0 <= i < n ==> b[i] == 0
  {
    if n == 0 then [] else [0] + Zeros(n - 1)
  }

  function WordBytes(w: nat): (b: Bytes)
    requires w < TWO32
    ensures |b| == 4
  {
    [w % 0x100, w / 0x100 % 0x100, w / 0x1_0000 % 0x100, w / 0x100_0000]
  }

  /** strncpy into the zeroed name field: at most 63 bytes. */
  function NameField(name: string): (b: Bytes)
    requires ByteString(name)
    ensures |b| == NAME_MAX
  {
    var kept := if |name| < NAME_MAX then name else name[..NAME_MAX - 1];
    assert ByteString(kept) by { forall c <- kept ensures c in name {} }
    BytesOf(kept) + Zeros(NAME_MAX - |kept|)
  }

  predicate Printable(i: Item) {
    ByteString(i.name) && |i.data| < TWO32 && (i.isDir ==> i.data == [])
  }

  /** write_entry */
  function Printed(i: Item): (b: Bytes)
    requires Printable(i)
    ensures |b| == HEADER + |i.data|
  {
    NameField(i.name) + WordBytes(|i.data|) + WordBytes(if i.isDir then 1 else 0) + i.data
  }

  /** All entries, then the end marker. */
  function PrintedImage(items: seq<Item>): Bytes
    requires forall i <- items :: Printable(i)
  {
    if items == [] then Zeros(HEADER) else Printed(items[0]) + PrintedImage(items[1..])
  }
}
