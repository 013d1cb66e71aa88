/** Whole runs of allocations and frees, seen from the callers of the page allocator. */
module PmmRuns {
  import opened Base
  import opened PageBits
  import Pmm
  import PmmInit

  /** A run of pages handed out and not given back. */
  datatype Extent = Extent(start: nat, count: nat) {
    predicate Has(page: nat) { start <= page < start + count }
  }

  datatype State = State(bits: seq<bool>, freePages: nat, live: set<Extent>)

  /** One call, with the address it answered; a caller frees only what it was given. */
  datatype Event =
    | Alloc(n: nat, answer: nat)
    | Free(extent: Extent)

  /** The caller of an allocation holds the pages its 32-bit answer names, unless that is NULL. */
  ghost predicate Step(s: State, e: Event, t: State) {
    match e
    case Alloc(n, answer) =>
      && Pmm.AllocStep(s.bits, s.freePages, n, Returned(answer), t.bits, t.freePages)
      && t.live == s.live + if answer == 0 then {} else {Extent(answer / PAGE_SIZE, n)}
    case Free(x) =>
      && x in s.live
      && x.start + x.count <= |s.bits|
      && t == State(SetRun(s.bits, x.start, x.count, false), Wrap32(s.freePages + x.count), s.live - {x})
  }

  ghost predicate Run(s: State, events: seq<Event>, t: State)
    decreases |events|
  {
    if events == [] then s == t
    else
      var before, last := events[..|events| - 1], events[|events| - 1];
      exists mid :: Run(s, before, mid) && Step(mid, last, t)
  }

  function Booted(boot: seq<bool>): State { State(boot, ClearCount(boot), {}) }

  /** No page at or above 4 GiB is free at boot. */
  ghost predicate Low(boot: seq<bool>) {
    forall page: nat :: TWO32 / PAGE_SIZE <= page < |boot| ==> boot[page]
  }

  /** `boot` is the bitmap left by kpmm_init: its used pages are never handed out. */
  ghost predicate Inv(boot: seq<bool>, s: State) {
    && |s.bits| == |boot| < TWO32 && boot != [] && boot[0]
    && s.freePages == ClearCount(s.bits)
    && (forall x <- s.live :: 0 < x.count && ClearRun(boot, x.start, x.count))
    && (forall x, y, page: nat :: x in s.live && y in s.live && x.Has(page) && y.Has(page) ==> x == y)
    && (forall page: nat :: page < |boot| ==> (s.bits[page] <==> boot[page] || exists x <- s.live :: x.Has(page)))
  }

  lemma BootedInv(boot: seq<bool>)
    requires 0 < |boot| < TWO32 && boot[0]
    ensures Inv(boot, Booted(boot))
  {
  }

  /** A page is used exactly when it is boot-reserved or in exactly one live extent, after any run. */
  lemma {:induction false} RunKeepsInv(boot: seq<bool>, s: State, events: seq<Event>, t: State)
    requires Low(boot) && Inv(boot, s) && Run(s, events, t)
    ensures Inv(boot, t)
    decreases |events|
  {
    hide Inv, Low;
    if events != [] {
      var e := events[|events| - 1];
      var mid :| Run(s, events[..|events| - 1], mid) && Step(mid, e, t);
      RunKeepsInv(boot, s, events[..|events| - 1], mid);
      StepKeepsInv(boot, mid, e, t);
    }
  }

  lemma StepKeepsInv(boot: seq<bool>, s: State, e: Event, t: State)
    requires Low(boot) && Inv(boot, s) && Step(s, e, t)
    ensures Inv(boot, t)
  {
    hide Inv, Low;
    match e {
      case Alloc(n, answer) =>
        if answer != 0 { AllocKeepsInv(boot, s, n, answer, t); } else { NullChangesNothing(boot, s, n, t); }
      case Free(x) => FreeKeepsInv(boot, s, x, t);
    }
  }

  /** Below 4 GiB an answer other than NULL is the address of the run that was taken, and NULL means none was. */
  lemma AnswerNamesRun(boot: seq<bool>, s: State, n: nat, answer: nat, t: State)
    requires Low(boot) && Inv(boot, s) && Step(s, Alloc(n, answer), t)
    ensures answer == 0 ==> t == s
    ensures answer != 0 ==> n > 0 && answer % PAGE_SIZE == 0 && Taken(s, answer / PAGE_SIZE, n, t)
  {
    if n > 0 && s.freePages > 0 {
      var start: nat :| Pmm.TakenAt(s.bits, s.freePages, n, start, t.bits, t.freePages) && answer == Pmm.PageAddr(start);
      assert ClearRun(s.bits, start, n) && !s.bits[start] && !boot[start];
    }
  }

  /** The run of `n` pages at `start` has been taken: it was clear, and the counter has gone down by `n`. */
  ghost predicate Taken(s: State, start: nat, n: nat, t: State) {
    && ClearRun(s.bits, start, n) && t.bits == SetRun(s.bits, start, n, true)
    && t.freePages == Wrap32(s.freePages - n)
  }

  lemma NullChangesNothing(boot: seq<bool>, s: State, n: nat, t: State)
    requires Low(boot) && Inv(boot, s) && Step(s, Alloc(n, 0), t)
    ensures t == s
  {
    AnswerNamesRun(boot, s, n, 0, t);
  }

  lemma AllocKeepsInv(boot: seq<bool>, s: State, n: nat, answer: nat, t: State)
    requires Low(boot) && Inv(boot, s) && answer != 0 && Step(s, Alloc(n, answer), t)
    ensures Inv(boot, t)
    ensures n > 0 && ClearRun(boot, answer / PAGE_SIZE, n)
  {
    AnswerNamesRun(boot, s, n, answer, t);
    hide Low, Pmm.AllocStep;
    var x := Extent(answer / PAGE_SIZE, n);
    Pmm.TakenRun(s.bits, x.start, n);
    assert ClearRun(boot, x.start, n) by {
      forall page | x.start <= page < x.start + n ensures !boot[page] { assert !s.bits[page]; }
    }
    forall y, page: nat | y in s.live && y.Has(page) ensures !x.Has(page) {
      assert page < |boot| && s.bits[page];
    }
    forall page: nat | page < |boot|
      ensures t.bits[page] <==> boot[page] || exists y <- t.live :: y.Has(page)
    {
      if x.Has(page) { assert x in t.live; }
      if exists y <- t.live :: y.Has(page) {
        var y :| y in t.live && y.Has(page);
        assert y == x || y in s.live;
      }
      if exists y <- s.live :: y.Has(page) {
        var y :| y in s.live && y.Has(page);
        assert y in t.live;
      }
    }
  }

  lemma FreeKeepsInv(boot: seq<bool>, s: State, x: Extent, t: State)
    requires Inv(boot, s) && Step(s, Free(x), t)
    ensures Inv(boot, t)
  {
    assert UsedRun(s.bits, x.start, x.count) by {
      forall page | x.start <= page < x.start + x.count ensures s.bits[page] { assert x.Has(page); }
    }
    ClearCountSetRun(s.bits, x.start, x.count, false);
    UsedInIsFull(s.bits, x.start, x.count);
    forall page: nat | page < |boot|
      ensures t.bits[page] <==> boot[page] || exists y <- t.live :: y.Has(page)
    {
      if x.Has(page) {
        assert !boot[page];
        assert forall y <- t.live :: !y.Has(page);
      }
      if exists y <- s.live :: y.Has(page) {
        var y :| y in s.live && y.Has(page);
        assert y == x || y in t.live;
      }
    }
  }

  /** Every allocation of every run is disjoint from all live ones and from the boot-reserved pages. */
  lemma AllocationsAreFresh(boot: seq<bool>, s: State, events: seq<Event>, t: State, n: nat, answer: nat, u: State)
    requires Low(boot) && Inv(boot, s) && Run(s, events, t) && Step(t, Alloc(n, answer), u) && answer != 0
    ensures answer % PAGE_SIZE == 0 && n > 0
    ensures ClearRun(boot, answer / PAGE_SIZE, n)
    ensures forall x, page: nat :: x in t.live && x.Has(page) ==>
      !(answer / PAGE_SIZE <= page < answer / PAGE_SIZE + n)
  {
    RunKeepsInv(boot, s, events, t);
    AllocKeepsInv(boot, t, n, answer, u);
    AnswerNamesRun(boot, t, n, answer, u);
    forall x, page: nat | x in t.live && x.Has(page) ensures !(answer / PAGE_SIZE <= page < answer / PAGE_SIZE + n) {
      assert page < |boot| && t.bits[page];
    }
  }

  /** From the bitmap kpmm_init builds: every page ever handed out lies in a free region, above 1 MiB and the kernel. */
  lemma OnlyDescribedPagesAreHandedOut(
    boot: seq<bool>, regions: seq<PmmInit.Region>, kernelEnd: nat,
    events: seq<Event>, t: State, n: nat, answer: nat, u: State)
    requires PmmInit.Describes(boot, regions, kernelEnd) && 0 < |boot| < TWO32 && Low(boot)
    requires Run(Booted(boot), events, t) && Step(t, Alloc(n, answer), u) && answer != 0
    ensures forall page: nat :: answer / PAGE_SIZE <= page < answer / PAGE_SIZE + n ==>
      PmmInit.Covered(regions, kernelEnd, page)
    ensures answer >= MIN_BASE && answer >= kernelEnd
  {
    PmmInit.NeverFreeAtBoot(boot, regions, kernelEnd, 0);
    BootedInv(boot);
    AllocationsAreFresh(boot, Booted(boot), events, t, n, answer, u);
    var first := answer / PAGE_SIZE;
    assert first < |boot| && !boot[first];
    assert PmmInit.Covered(regions, kernelEnd, first);
  }

  /** Memory that ends by 4 GiB has no free page above it. */
  lemma SmallMemoryIsLow(boot: seq<bool>, regions: seq<PmmInit.Region>, kernelEnd: nat)
    requires PmmInit.Describes(boot, regions, kernelEnd) && PmmInit.MaxEnd(regions) <= TWO32
    ensures Low(boot)
  {
    forall page: nat | TWO32 / PAGE_SIZE <= page < |boot| ensures boot[page] {
      PmmInit.NeverFreeAtBoot(boot, regions, kernelEnd, page);
    }
  }

  // ---- Above 4 GiB ----

  /** A call that took pages answered their address. */
  ghost predicate Right(s: State, n: nat, answer: nat, t: State) {
    answer != 0 && exists start: nat ::
      Pmm.TakenAt(s.bits, s.freePages, n, start, t.bits, t.freePages) && Pmm.NamesPages(answer, start, n)
  }

  /** Every allocation of every run from boot that takes pages answers their address. */
  ghost predicate AlwaysRight(boot: seq<bool>) {
    forall events: seq<Event>, t: State, n: nat, answer: nat, u: State ::
      Run(Booted(boot), events, t) && Step(t, Alloc(n, answer), u) && u.bits != t.bits ==> Right(t, n, answer, u)
  }

  /** The answers of all runs are right exactly when no page at or above 4 GiB is free at boot. */
  lemma AlwaysRightIff(boot: seq<bool>)
    requires 0 < |boot| < TWO32 && boot[0]
    ensures AlwaysRight(boot) <==> Low(boot)
  {
    BootedInv(boot);
    if Low(boot) {
      forall events: seq<Event>, t: State, n: nat, answer: nat, u: State
        | Run(Booted(boot), events, t) && Step(t, Alloc(n, answer), u) && u.bits != t.bits
        ensures Right(t, n, answer, u)
      {
        RunKeepsInv(boot, Booted(boot), events, t);
        LowAnswerIsRight(boot, t, n, answer, u);
      }
    } else {
      var page: nat :| TWO32 / PAGE_SIZE <= page < |boot| && !boot[page];
      var events, t, answer, u := WrongAnswer(Booted(boot), page);
      assert !Right(t, 1, answer, u);
    }
  }

  lemma LowAnswerIsRight(boot: seq<bool>, s: State, n: nat, answer: nat, t: State)
    requires Low(boot) && Inv(boot, s) && Step(s, Alloc(n, answer), t) && t.bits != s.bits
    ensures Right(s, n, answer, t)
  {
    var start: nat :| Pmm.TakenAt(s.bits, s.freePages, n, start, t.bits, t.freePages) && answer == Pmm.PageAddr(start);
    var last := start + n - 1;
    assert ClearRun(s.bits, start, n) && !s.bits[last] && !boot[last];
    Pmm.AddressNamesIff(start, n);
  }

  /** With a page free above 4 GiB, allocations of one page at a time come to a wrong answer. */
  lemma WrongAnswer(s: State, page: nat) returns (events: seq<Event>, t: State, answer: nat, u: State)
    requires TWO32 / PAGE_SIZE <= page < |s.bits| < TWO32 && !s.bits[page] && s.freePages == ClearCount(s.bits)
    ensures Run(s, events, t) && Step(t, Alloc(1, answer), u) && u.bits != t.bits && !Right(t, 1, answer, u)
    decreases ClearCount(s.bits)
  {
    ClearCountPositive(s.bits);
    var start, v := OnePage(s);
    answer := Pmm.PageAddr(start);
    if start >= TWO32 / PAGE_SIZE {
      events, t, u := [], s, v;
      LeftmostIsUnique(s.bits, start);
      Pmm.AddressNamesIff(start, 1);
    } else {
      var e, rest := Alloc(1, answer), [];
      rest, t, answer, u := WrongAnswer(v, page);
      events := [e] + rest;
      Prepend(s, e, v, rest, t);
    }
  }

  /** One page from the allocator. */
  lemma OnePage(s: State) returns (start: nat, t: State)
    requires s.freePages == ClearCount(s.bits) > 0 && |s.bits| < TWO32
    ensures LeftmostRun(s.bits, start, 1) && start < |s.bits| && !s.bits[start]
    ensures t.bits == s.bits[start := true] && t.freePages == ClearCount(t.bits) == ClearCount(s.bits) - 1
    ensures Step(s, Alloc(1, Pmm.PageAddr(start)), t)
  {
    ClearCountPositive(s.bits);
    start := Lowest(s.bits);
    var answer := Pmm.PageAddr(start);
    var after := SetRun(s.bits, start, 1, true);
    assert after == s.bits[start := true];
    ClearCountUpdate(s.bits, start, true);
    t := State(after, Wrap32(s.freePages - 1), s.live + if answer == 0 then {} else {Extent(answer / PAGE_SIZE, 1)});
    assert ClearRun(s.bits, start, 1);
    assert Pmm.TakenAt(s.bits, s.freePages, 1, start, t.bits, t.freePages);
  }

  lemma Lowest(bits: seq<bool>) returns (start: nat)
    requires exists i :: 0 <= i < |bits| && !bits[i]
    ensures start < |bits| && !bits[start] && LeftmostRun(bits, start, 1)
  {
    start := 0;
    while bits[start]
      invariant start < |bits| && UsedRun(bits, 0, start)
      decreases |bits| - start
    {
      start := start + 1;
    }
    Pmm.UsedPrefix(bits, start);
    assert ClearRun(bits, start, 1);
  }

  /** A run can be extended at its front. */
  lemma {:induction false} Prepend(s: State, e: Event, mid: State, rest: seq<Event>, t: State)
    requires Step(s, e, mid) && Run(mid, rest, t)
    ensures Run(s, [e] + rest, t)
    decreases |rest|
  {
    hide Step;
    var events := [e] + rest;
    if rest == [] {
      assert events[..0] == [] && events[0] == e && Run(s, [], s);
    } else {
      var last := rest[|rest| - 1];
      var u :| Run(mid, rest[..|rest| - 1], u) && Step(u, last, t);
      Prepend(s, e, mid, rest[..|rest| - 1], u);
      assert events[..|events| - 1] == [e] + rest[..|rest| - 1] && events[|events| - 1] == last;
    }
  }
}
