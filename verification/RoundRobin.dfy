/** The scheduler's decisions over whole runs: the tasks in list order, stepped by timer ticks and exits. */
module RoundRobin {
  import opened Base

  const USER_DATA := 0x23
  const FRAME_SIZE := 68

  /** isr_registers_t */
  datatype Registers = Registers(gs: nat, fs: nat, es: nat, ds: nat, edi: nat, esi: nat, ebp: nat, esp: nat, ebx: nat,
                                 edx: nat, ecx: nat, eax: nat, intNo: nat, errCode: nat, eip: nat, cs: nat, eflags: nat)

  /**
   * What the interrupt pushed: the registers, the address they lie at, and the word behind them (the user ESP, for a
   * user task).
   */
  datatype Frame = Frame(regs: Registers, address: nat, word17: nat)

  /** The context kscheduler_tick leaves in the task it interrupts. */
  function Saved(f: Frame): Registers {
    var r := f.regs;
    if r.cs % 4 == 3 then
      Registers(USER_DATA, USER_DATA, USER_DATA, USER_DATA, r.edi, r.esi, r.ebp, f.word17, r.ebx,
                r.edx, r.ecx, r.eax, r.intNo, r.errCode, r.eip, r.cs, r.eflags)
    else
      Registers(r.gs, r.fs, r.es, r.ds, r.edi, r.esi, r.ebp, Wrap32(f.address + FRAME_SIZE), r.ebx,
                r.edx, r.ecx, r.eax, r.intNo, r.errCode, r.eip, r.cs, r.eflags)
  }

  /** One task as the scheduler sees it; `directory` is 0 when it has none of its own. */
  datatype Entry = Entry(zombie: bool, ctx: Registers, directory: nat)

  /** The cycle from the list head on, the running task's place in it, and CR3. */
  datatype State = State(ring: seq<Entry>, cur: nat, cr3: nat)

  predicate WellFormed(s: State) { s.cur < |s.ring| }

  /** The place `k` links after `cur` in a cycle of `n`. */
  function After(cur: nat, k: nat, n: nat): (i: nat)
    requires cur < n && k <= n
    ensures i < n
  {
    if cur + k < n then cur + k else cur + k - n
  }

  /** The first task from the k-th place after `cur` on that is not a zombie, `cur` itself coming last. */
  function Search(ring: seq<Entry>, cur: nat, k: nat): (r: Option<nat>)
    requires cur < |ring| && 1 <= k <= |ring|
    ensures r.Some? ==> r.value < |ring|
    decreases |ring| - k
  {
    var i := After(cur, k, |ring|);
    if !ring[i].zombie then Some(i)
    else if k == |ring| then None
    else Search(ring, cur, k + 1)
  }

  function Next(s: State): (r: Option<nat>)
    requires WellFormed(s)
    ensures r.Some? ==> r.value < |s.ring|
  {
    Search(s.ring, s.cur, 1)
  }

  /** How many links lead from `cur` to `j`; all the way round to itself. */
  function Distance(cur: nat, j: nat, n: nat): (d: nat)
    requires cur < n && j < n
    ensures 1 <= d <= n && After(cur, d, n) == j
  {
    if j > cur then j - cur else j + n - cur
  }

  lemma {:induction false} SearchMeaning(ring: seq<Entry>, cur: nat, k: nat)
    requires cur < |ring| && 1 <= k <= |ring|
    ensures match Search(ring, cur, k)
      case None => forall j :: 0 <= j < |ring| && Distance(cur, j, |ring|) >= k ==> ring[j].zombie
      case Some(i) => !ring[i].zombie && Distance(cur, i, |ring|) >= k &&
                      forall j :: 0 <= j < |ring| && k <= Distance(cur, j, |ring|) < Distance(cur, i, |ring|) ==> ring[j].zombie
    decreases |ring| - k
  {
    var i := After(cur, k, |ring|);
    if ring[i].zombie && k < |ring| { SearchMeaning(ring, cur, k + 1); }
  }

  /**
   * kscheduler_pick_next finds the nearest task after the running one that is not a zombie; none exactly when all are
   * zombies.
   */
  lemma NextIsNearest(s: State)
    requires WellFormed(s)
    ensures Next(s) == None <==> forall e <- s.ring :: e.zombie
    ensures Next(s).Some? ==> (
      var i := Next(s).value;
      && !s.ring[i].zombie
      && forall j :: 0 <= j < |s.ring| && Distance(s.cur, j, |s.ring|) < Distance(s.cur, i, |s.ring|) ==> s.ring[j].zombie)
  {
    SearchMeaning(s.ring, s.cur, 1);
    forall j | 0 <= j < |s.ring| ensures Distance(s.cur, j, |s.ring|) >= 1 {}
  }

  // ---- Steps ----

  /** The cycle once the running task's context has been saved. */
  function Interrupted(ring: seq<Entry>, cur: nat, f: Frame): (r: seq<Entry>)
    requires cur < |ring|
    ensures |r| == |ring| && forall i :: 0 <= i < |ring| ==> r[i].zombie == ring[i].zombie && r[i].directory == ring[i].directory
  {
    ring[cur := Entry(ring[cur].zombie, Saved(f), ring[cur].directory)]
  }

  /** The processor goes to the task at `i`. */
  function SwitchTo(ring: seq<Entry>, i: nat, cr3: nat): State
    requires i < |ring|
  {
    State(ring, i, if ring[i].directory != 0 then ring[i].directory else cr3)
  }

  /** A timer tick that reaches the scheduler, the running task's exit, or a task that joins at the end of the cycle. */
  datatype Event = Tick(frame: Frame) | Exit | Join(entry: Entry)

  /** What can happen between two stores of an append. */
  type Interruption = e: Event | !e.Join? witness Exit

  /** kscheduler_tick (a tick that finds no task panics), ktask_exit, and what kscheduler_add_task does to the cycle. */
  function Step(s: State, e: Event): (r: Result<State>)
    requires WellFormed(s)
    ensures r.Returned? ==> WellFormed(r.value) && |r.value.ring| == |s.ring| + if e.Join? then 1 else 0
  {
    var me := s.ring[s.cur];
    match e
    case Join(entry) => Returned(State(s.ring + [entry], s.cur, s.cr3))
    case Exit => Returned(State(s.ring[s.cur := Entry(true, me.ctx, me.directory)], s.cur, s.cr3))
    case Tick(f) =>
      var ring := Interrupted(s.ring, s.cur, f);
      match Search(ring, s.cur, 1)
      case None => Halted
      case Some(i) => Returned(SwitchTo(ring, i, s.cr3))
  }

  function Run(s: State, events: seq<Event>): (r: Result<State>)
    requires WellFormed(s)
    decreases events
    ensures r.Returned? ==> WellFormed(r.value) && |r.value.ring| == |s.ring| + Joins(events)
  {
    if events == [] then Returned(s)
    else
      match Step(s, events[0])
      case Halted => Halted
      case Returned(t) => Run(t, events[1..])
  }

  lemma RunFrom(s: State, events: seq<Event>, i: nat)
    requires WellFormed(s) && i < |events|
    ensures Run(s, events[i..]) == match Step(s, events[i]) case Halted => Halted case Returned(t) => Run(t, events[i + 1..])
  {
    assert events[i..][1..] == events[i + 1..] && events[i..][0] == events[i];
  }

  lemma {:induction false} RunOfSum(s: State, first: seq<Event>, second: seq<Event>)
    requires WellFormed(s)
    ensures Run(s, first + second) == match Run(s, first) case Halted => Halted case Returned(t) => Run(t, second)
    decreases first
  {
    if first == [] {
      assert first + second == second;
    } else {
      assert (first + second)[0] == first[0] && (first + second)[1..] == first[1..] + second;
      if Step(s, first[0]).Returned? { RunOfSum(Step(s, first[0]).value, first[1..], second); }
    }
  }

  /** A run during which a task joins: `first` before it is linked in, `second` after. */
  lemma RunThrough(s: State, first: seq<Event>, e: Entry, second: seq<Event>)
    requires WellFormed(s)
    ensures Run(s, first + [Join(e)] + second) ==
            match Run(s, first) case Halted => Halted case Returned(t) => Run(State(t.ring + [e], t.cur, t.cr3), second)
  {
    RunOfSum(s, first + [Join(e)], second);
    RunOfSum(s, first, [Join(e)]);
  }

  function Ticks(events: seq<Event>): nat {
    if events == [] then 0 else (if events[0].Tick? then 1 else 0) + Ticks(events[1..])
  }

  function Joins(events: seq<Event>): nat {
    if events == [] then 0 else (if events[0].Join? then 1 else 0) + Joins(events[1..])
  }

  /** The running task exits before any tick interrupts it. */
  predicate ExitsFirst(events: seq<Event>) {
    events != [] && (events[0].Exit? || (events[0].Join? && ExitsFirst(events[1..])))
  }

  lemma TicksFrom(events: seq<Event>, i: nat)
    requires i < |events|
    ensures Ticks(events[i..]) == (if events[i].Tick? then 1 else 0) + Ticks(events[i + 1..])
  {
    assert events[i..][1..] == events[i + 1..] && events[i..][0] == events[i];
  }

  /** Some tick of the run hands the processor to the task at `j`. */
  predicate Picked(s: State, events: seq<Event>, j: nat)
    requires WellFormed(s)
    decreases events
  {
    events != [] && (
      match Step(s, events[0])
      case Halted => false
      case Returned(t) => (events[0].Tick? && t.cur == j) || Picked(t, events[1..], j))
  }

  // ---- Over whole runs ----

  /** What one step does to the task at `j`. */
  lemma StepOnOther(s: State, e: Event, j: nat)
    requires WellFormed(s) && j < |s.ring| && Step(s, e).Returned?
    ensures var t := Step(s, e).value;
      && (s.ring[j].zombie ==> t.ring[j].zombie)
      && (j != s.cur ==> t.ring[j] == s.ring[j])
      && (e.Tick? ==> !t.ring[t.cur].zombie && t.ring[j].zombie == s.ring[j].zombie)
  {
    if e.Tick? {
      var ring := Interrupted(s.ring, s.cur, e.frame);
      SearchMeaning(ring, s.cur, 1);
    }
  }

  /** A zombie is never picked again. */
  lemma {:induction false} ZombiesAreNeverPicked(s: State, events: seq<Event>, j: nat)
    requires WellFormed(s) && j < |s.ring| && s.ring[j].zombie
    ensures !Picked(s, events, j)
    decreases events
  {
    if events != [] && Step(s, events[0]).Returned? {
      StepOnOther(s, events[0], j);
      ZombiesAreNeverPicked(Step(s, events[0]).value, events[1..], j);
    }
  }

  /** A task that exits keeps its context, disturbs no other, and never gets the processor again. */
  lemma ExitedNeverRuns(s: State, events: seq<Event>)
    requires WellFormed(s)
    ensures Step(s, Exit).Returned? && !Picked(Step(s, Exit).value, events, s.cur)
    ensures var t := Step(s, Exit).value;
      && t.cur == s.cur && t.cr3 == s.cr3 && |t.ring| == |s.ring|
      && t.ring[s.cur].zombie && t.ring[s.cur].ctx == s.ring[s.cur].ctx
      && forall j :: 0 <= j < |s.ring| && j != s.cur ==> t.ring[j] == s.ring[j]
  {
    ZombiesAreNeverPicked(Step(s, Exit).value, events, s.cur);
  }

  /** A tick picks a task that is not a zombie, or one nearer to it than the running one was. */
  lemma TickComesNearer(s: State, f: Frame, j: nat)
    requires WellFormed(s) && j < |s.ring| && !s.ring[j].zombie
    ensures Step(s, Tick(f)).Returned?
    ensures var t := Step(s, Tick(f)).value; t.cur == j || Distance(t.cur, j, |s.ring|) < Distance(s.cur, j, |s.ring|)
  {
    var n := |s.ring|;
    var ring := Interrupted(s.ring, s.cur, f);
    assert ring[j].zombie == s.ring[j].zombie;
    SearchMeaning(ring, s.cur, 1);
    assert Distance(s.cur, j, n) >= 1;
    var i := Search(ring, s.cur, 1).value;
    assert Distance(s.cur, i, n) <= Distance(s.cur, j, n);
  }

  /**
   * Bounded wait: a live task is picked within as many ticks as there are links to it and tasks that join meanwhile,
   * whatever the other tasks do and whichever of them exit; no tick before that panics.
   */
  lemma {:induction false} BoundedWait(s: State, events: seq<Event>, j: nat)
    requires WellFormed(s) && j < |s.ring| && !s.ring[j].zombie
    requires Ticks(events) >= Distance(s.cur, j, |s.ring|) + Joins(events) && (s.cur == j ==> !ExitsFirst(events))
    ensures Picked(s, events, j)
    decreases events
  {
    var e := events[0];
    if e.Tick? { TickComesNearer(s, e.frame, j); }
    StepOnOther(s, e, j);
    var t := Step(s, e).value;
    if !e.Tick? || t.cur != j { BoundedWait(t, events[1..], j); }
  }

  /** With a live task on the list, no tick panics. */
  lemma {:induction false} LiveTaskKeepsRunning(s: State, events: seq<Event>, j: nat)
    requires WellFormed(s) && j < |s.ring| && !s.ring[j].zombie && Exit !in events
    ensures Run(s, events).Returned?
    decreases events
  {
    if events != [] {
      assert events[0] in events;
      if events[0].Tick? { TickComesNearer(s, events[0].frame, j); }
      StepOnOther(s, events[0], j);
      LiveTaskKeepsRunning(Step(s, events[0]).value, events[1..], j);
    }
  }

  /** The task at `j` is never the running one when an event of the run happens. */
  predicate Waits(s: State, events: seq<Event>, j: nat)
    requires WellFormed(s)
    decreases events
  {
    events == [] || (s.cur != j &&
      match Step(s, events[0])
      case Halted => true
      case Returned(t) => Waits(t, events[1..], j))
  }

  /** A waiting task's saved context, state and directory are untouched until it runs again. */
  lemma {:induction false} WaitingIsUntouched(s: State, events: seq<Event>, j: nat)
    requires WellFormed(s) && j < |s.ring| && Run(s, events).Returned? && Waits(s, events, j)
    ensures Run(s, events).value.ring[j] == s.ring[j]
    decreases events
  {
    if events != [] {
      StepOnOther(s, events[0], j);
      WaitingIsUntouched(Step(s, events[0]).value, events[1..], j);
    }
  }

  /**
   * Switched out by one tick and picked by a later one, a task resumes from exactly the context that was saved, in its
   * own address space.
   */
  lemma ResumesWhereItStopped(s: State, f: Frame, t: State, events: seq<Event>, u: State, g: Frame, v: State)
    requires WellFormed(s) && Step(s, Tick(f)) == Returned(t)
    requires Waits(t, events, s.cur) && Run(t, events) == Returned(u) && u.cur != s.cur
    requires Step(u, Tick(g)) == Returned(v) && v.cur == s.cur
    ensures var c, r := v.ring[v.cur].ctx, f.regs;
      && c.eip == r.eip && c.cs == r.cs && c.eflags == r.eflags
      && c.eax == r.eax && c.ebx == r.ebx && c.ecx == r.ecx && c.edx == r.edx
      && c.esi == r.esi && c.edi == r.edi && c.ebp == r.ebp && c.intNo == r.intNo && c.errCode == r.errCode
    ensures var c, r := v.ring[v.cur].ctx, f.regs;
      if r.cs % 4 == 3 then c.esp == f.word17 && c.ds == 0x23 && c.es == 0x23 && c.fs == 0x23 && c.gs == 0x23
      else c.esp == (f.address + 68) % TWO32 && c.ds == r.ds && c.es == r.es && c.fs == r.fs && c.gs == r.gs
    ensures v.cr3 == if s.ring[s.cur].directory != 0 then s.ring[s.cur].directory else u.cr3
  {
    assert t.ring[s.cur].ctx == Saved(f) && t.ring[s.cur].directory == s.ring[s.cur].directory;
    WaitingIsUntouched(t, events, s.cur);
    StepOnOther(u, Tick(g), s.cur);
  }
}
