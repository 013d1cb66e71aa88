/** One regular file behind many descriptors, over any interleaving of reads and writes. */
module FileRuns {
  import opened Base
  import opened TmpfsEntry

  /** The bytes of the file and the offset of each descriptor. */
  datatype State = State(bytes: Bytes, offsets: seq<nat>)

  datatype Op = Write(d: nat, data: Bytes) | Read(d: nat, len: nat)

  /** No descriptor stands past the end. */
  predicate Inside(s: State) {
    forall d :: 0 <= d < |s.offsets| ==> s.offsets[d] <= |s.bytes| < TWO32
  }

  predicate Possible(s: State, op: Op) {
    op.d < |s.offsets|
  }

  /** The bytes a read answers. */
  function Answer(s: State, op: Op): Bytes
    requires Possible(s, op)
  {
    match op
    case Write(d, data) => []
    case Read(d, len) => Slice(s.bytes, s.offsets[d], len)
  }

  /** Halted: the write would pass the 4 GiB a size can count. */
  function Step(s: State, op: Op): (r: Result<State>)
    requires Inside(s) && Possible(s, op)
    ensures r.Returned? ==> Inside(r.value) && |r.value.offsets| == |s.offsets|
  {
    match op
    case Read(d, len) => Returned(State(s.bytes, s.offsets[d := s.offsets[d] + |Slice(s.bytes, s.offsets[d], len)|]))
    case Write(d, data) =>
      var o := s.offsets[d];
      if data == [] then Returned(s)
      else if o + |data| >= TWO32 then Halted
      else Returned(State(Overwrite(s.bytes, o, data), s.offsets[d := o + |data|]))
  }

  predicate AllPossible(s: State, ops: seq<Op>) {
    forall op <- ops :: Possible(s, op)
  }

  function Run(s: State, ops: seq<Op>): (r: Result<State>)
    requires Inside(s) && AllPossible(s, ops)
    ensures r.Returned? ==> Inside(r.value) && |r.value.offsets| == |s.offsets|
    decreases ops
  {
    if ops == [] then Returned(s)
    else
      assert ops[0] in ops && forall op <- ops[1..] :: op in ops;
      match Step(s, ops[0])
      case Halted => Halted
      case Returned(t) => Run(t, ops[1..])
  }

  /** An open file: a descriptor is its offset; every one has its own. */
  class OpenFile {
    const entry: Entry
    var offsets: seq<nat>

    ghost predicate Valid()
      reads this, entry
    {
      entry.FileOk() && Inside(View())
    }

    ghost function View(): State
      reads this, entry
    {
      State(entry.Content(), offsets)
    }

    constructor (entry: Entry, n: nat)
      requires entry.FileOk()
      ensures Valid() && this.entry == entry && |offsets| == n && forall d :: 0 <= d < n ==> offsets[d] == 0
    {
      this.entry := entry;
      offsets := seq(n, _ => 0);
    }

    /** A write that is neither refused nor faults is one step of the abstract file; a refused one is none. */
    method WriteBy(d: nat, data: Bytes, grow: Growth) returns (written: Result<nat>)
      requires Valid() && d < |offsets| && |data| < TWO32 && entry.Carried(offsets[d], |data|, grow)
      modifies this, entry
      ensures written == Halted <==> old(entry.WriteFaults(offsets[d], |data|, grow))
      ensures written == Returned(0) <==> old(entry.WriteRefused(offsets[d], |data|, grow))
      ensures written != Halted ==> Valid() && written in {Returned(0), Returned(|data|)}
      ensures written != Halted ==>
        Step(old(View()), Write(d, if written == Returned(0) then [] else data)) == Returned(View())
    {
      assert offsets[d] <= |entry.Content()|;
      var next;
      written, next := entry.Write(offsets[d], data, grow);
      if written != Halted {
        offsets := offsets[d := next];
        assert written == Returned(0) ==> offsets == old(offsets);
      }
    }

    method ReadBy(d: nat, len: nat) returns (data: Bytes)
      requires Valid() && d < |offsets|
      modifies this`offsets
      ensures Valid() && data == Answer(old(View()), Read(d, len))
      ensures Returned(View()) == Step(old(View()), Read(d, len))
      ensures var o, content := old(offsets[d]), entry.Content();
        data == content[o..Min(o + len, |content|)] && offsets == old(offsets)[d := o + |data|]
    {
      var next;
      assert offsets[d] <= |entry.Content()|;
      data, next := entry.Read(offsets[d], len);
      offsets := offsets[d := next];
      assert entry.Content() == old(entry.Content());
    }
  }

  // ---- Over runs ----

  lemma OverwriteTwice(b: Bytes, o: nat, x: Bytes, y: Bytes)
    requires o <= |b|
    ensures Overwrite(Overwrite(b, o, x), o + |x|, y) == Overwrite(b, o, x + y)
  {
  }

  function Concat(chunks: seq<Bytes>): Bytes {
    if chunks == [] then [] else chunks[0] + Concat(chunks[1..])
  }

  function Writes(d: nat, chunks: seq<Bytes>): (ops: seq<Op>)
    ensures forall op <- ops :: op.Write? && op.d == d
  {
    if chunks == [] then [] else [Write(d, chunks[0])] + Writes(d, chunks[1..])
  }

  /** Writes through one descriptor splice their concatenation into the file, however they are cut up. */
  lemma {:induction false} WritesSplice(s: State, d: nat, chunks: seq<Bytes>)
    requires Inside(s) && d < |s.offsets| && s.offsets[d] + |Concat(chunks)| < TWO32
    ensures Run(s, Writes(d, chunks)) == Returned(State(
        Overwrite(s.bytes, s.offsets[d], Concat(chunks)), s.offsets[d := s.offsets[d] + |Concat(chunks)|]))
    decreases chunks
  {
    var o := s.offsets[d];
    if chunks == [] {
      assert Overwrite(s.bytes, o, []) == s.bytes && s.offsets[d := o + 0] == s.offsets;
    } else {
      var rest := Concat(chunks[1..]);
      var t := Step(s, Write(d, chunks[0])).value;
      assert Overwrite(s.bytes, o, []) == s.bytes;
      assert t.bytes == Overwrite(s.bytes, o, chunks[0]) && t.offsets == s.offsets[d := o + |chunks[0]|];
      OverwriteTwice(s.bytes, o, chunks[0], rest);
      WritesSplice(t, d, chunks[1..]);
      assert Writes(d, chunks)[1..] == Writes(d, chunks[1..]);
      assert t.offsets[d := t.offsets[d] + |rest|] == s.offsets[d := o + |Concat(chunks)|];
    }
  }

  /** Another descriptor standing where the writer started reads back exactly what was written. */
  lemma WrittenIsRead(s: State, d: nat, e: nat, chunks: seq<Bytes>)
    requires Inside(s) && d < |s.offsets| && e < |s.offsets| && d != e && s.offsets[e] == s.offsets[d]
    requires s.offsets[d] + |Concat(chunks)| < TWO32
    ensures Run(s, Writes(d, chunks)).Returned?
    ensures Answer(Run(s, Writes(d, chunks)).value, Read(e, |Concat(chunks)|)) == Concat(chunks)
  {
    WritesSplice(s, d, chunks);
    SliceOfOverwrite(s.bytes, s.offsets[d], Concat(chunks));
    hide Run, Writes, Concat, Overwrite, Slice;
  }

  /** The bytes the reads through `d` answer in a run, one after the other. */
  function ReadThrough(s: State, ops: seq<Op>, d: nat): Bytes
    requires Inside(s) && AllPossible(s, ops)
    decreases ops
  {
    if ops == [] then []
    else
      assert ops[0] in ops && forall op <- ops[1..] :: op in ops;
      (if ops[0].d == d then Answer(s, ops[0]) else []) +
      match Step(s, ops[0])
      case Halted => []
      case Returned(t) => ReadThrough(t, ops[1..], d)
  }

  /** How many bytes the reads through `d` ask for. */
  function Asked(ops: seq<Op>, d: nat): nat {
    if ops == [] then 0 else (if ops[0].Read? && ops[0].d == d then ops[0].len else 0) + Asked(ops[1..], d)
  }

  /**
   * Reads through one descriptor, however cut up and whatever is read through others in between, answer the file from its
   * offset on: all that was asked for, or all that is left.
   */
  lemma {:induction false} ReadsContinue(s: State, ops: seq<Op>, d: nat)
    requires Inside(s) && AllPossible(s, ops) && d < |s.offsets| && forall op <- ops :: op.Read?
    ensures Run(s, ops).Returned? && Run(s, ops).value.bytes == s.bytes
    ensures var end := Min(s.offsets[d] + Asked(ops, d), |s.bytes|);
      ReadThrough(s, ops, d) == s.bytes[s.offsets[d]..end] && Run(s, ops).value.offsets[d] == end
    decreases ops
  {
    hide Step, Answer, Run, ReadThrough, Asked, Inside, Min;
    if ops == [] {
      NothingRead(s, d);
    } else {
      assert ops[0] in ops && forall op <- ops[1..] :: op in ops;
      OneRead(s, ops[0]);
      FirstOfReads(s, ops, d);
      var t := Step(s, ops[0]).value;
      ReadsContinue(t, ops[1..], d);
      if ops[0].d == d { Joined(s.bytes, s.offsets[d], ops[0].len, Asked(ops[1..], d)); }
    }
  }

  lemma NothingRead(s: State, d: nat)
    requires Inside(s) && d < |s.offsets|
    ensures Run(s, []) == Returned(s) && ReadThrough(s, [], d) == [] && Asked([], d) == 0
    ensures Min(s.offsets[d], |s.bytes|) == s.offsets[d] && s.bytes[s.offsets[d]..s.offsets[d]] == []
  {
  }

  lemma OneRead(s: State, op: Op)
    requires Inside(s) && Possible(s, op) && op.Read?
    ensures var o := s.offsets[op.d]; var end := Min(o + op.len, |s.bytes|);
      && o <= |s.bytes| && Answer(s, op) == s.bytes[o..end]
      && Step(s, op) == Returned(State(s.bytes, s.offsets[op.d := end])) && Inside(Step(s, op).value)
  {
  }

  lemma FirstOfReads(s: State, ops: seq<Op>, d: nat)
    requires Inside(s) && AllPossible(s, ops) && ops != [] && Possible(s, ops[0]) && ops[0].Read?
    requires Step(s, ops[0]).Returned? && AllPossible(Step(s, ops[0]).value, ops[1..])
    ensures Run(s, ops) == Run(Step(s, ops[0]).value, ops[1..])
    ensures ReadThrough(s, ops, d) ==
      (if ops[0].d == d then Answer(s, ops[0]) else []) + ReadThrough(Step(s, ops[0]).value, ops[1..], d)
    ensures Asked(ops, d) == (if ops[0].d == d then ops[0].len else 0) + Asked(ops[1..], d)
  {
  }

  lemma Joined(b: Bytes, o: nat, n: nat, more: nat)
    requires o <= |b|
    ensures var mid, end := Min(o + n, |b|), Min(o + n + more, |b|);
      b[o..mid] + b[mid..end] == b[o..end] && Min(mid + more, |b|) == end
  {
  }

  lemma SliceOfOverwrite(b: Bytes, o: nat, data: Bytes)
    requires o <= |b|
    ensures Slice(Overwrite(b, o, data), o, |data|) == data
  {
  }

  /** Bytes outside what a run writes stay: a read-only run changes no byte, and no run shortens the file. */
  lemma {:induction false} FilesOnlyGrow(s: State, ops: seq<Op>)
    requires Inside(s) && AllPossible(s, ops) && Run(s, ops).Returned?
    ensures |s.bytes| <= |Run(s, ops).value.bytes|
    ensures (forall op <- ops :: op.Read?) ==> Run(s, ops).value.bytes == s.bytes
    decreases ops
  {
    if ops != [] {
      assert ops[0] in ops && forall op <- ops[1..] :: op in ops;
      FilesOnlyGrow(Step(s, ops[0]).value, ops[1..]);
    }
  }
}
